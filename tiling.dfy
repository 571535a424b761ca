/**
 * The row-major tiling that chunk traversal walks over a (lines, columns)
 * raster with chunk shape (rowStep, colStep). Tile (row, col) has its
 * origin at line row * rowStep and column col * colStep and is clipped to
 * the raster edge. The walk starts at tile (0, 0); each step moves one tile
 * to the right, or wraps to column 0 of the next tile row once the column
 * origin would reach or pass the last column.
 */
module Tiling {

  import Arith

  /** Raster extent and chunk shape, as in chunk_size = (rowStep, colStep). */
  datatype Layout = Layout(lines: nat, columns: nat, rowStep: nat, colStep: nat)
  {
    predicate Valid()
    {
      lines > 0 && columns > 0 && rowStep > 0 && colStep > 0
    }
  }

  /** A tile: columns [xStart, xEnd) by lines [yStart, yEnd). */
  datatype Window = Window(xStart: int, xEnd: int, yStart: int, yEnd: int)

  /** Position of a tile in the tile grid. */
  datatype Pos = Pos(row: nat, col: nat)

  function Min(a: int, b: int): int
  {
    if a <= b then a else b
  }

  function CeilDiv(n: nat, d: nat): nat
    requires d > 0
  {
    (n + d - 1) / d
  }

  /** Number of tile rows and tile columns. */
  function Rows(g: Layout): nat
    requires g.Valid()
  {
    CeilDiv(g.lines, g.rowStep)
  }

  function Cols(g: Layout): nat
    requires g.Valid()
  {
    CeilDiv(g.columns, g.colStep)
  }

  function TileCount(g: Layout): nat
    requires g.Valid()
  {
    Rows(g) * Cols(g)
  }

  predicate InGrid(g: Layout, p: Pos)
    requires g.Valid()
  {
    p.row < Rows(g) && p.col < Cols(g)
  }

  /** The tile at grid position p, with its far edges clipped to the raster. */
  function TileAt(g: Layout, p: Pos): Window
  {
    var y := p.row * g.rowStep;
    var x := p.col * g.colStep;
    Window(x, Min(x + g.colStep, g.columns), y, Min(y + g.rowStep, g.lines))
  }

  /** The bottom-right tile: it reaches both the last line and the last column. */
  predicate IsLast(g: Layout, p: Pos)
  {
    TileAt(g, p).yEnd == g.lines && TileAt(g, p).xEnd == g.columns
  }

  /** One step of the cursor: advance the column origin, wrapping to the next tile row. */
  function Next(g: Layout, p: Pos): Pos
  {
    if p.col * g.colStep + g.colStep >= g.columns then Pos(p.row + 1, 0) else Pos(p.row, p.col + 1)
  }

  /** Position of the k-th tile (from 0) of the walk that starts at (0, 0). */
  function PositionAfter(g: Layout, k: nat): Pos
  {
    if k == 0 then Pos(0, 0) else Next(g, PositionAfter(g, k - 1))
  }

  /** Row-major rank of a grid position. */
  function Index(g: Layout, p: Pos): nat
    requires g.Valid()
  {
    p.row * Cols(g) + p.col
  }

  /** Tile k of a dimension starts before its end exactly when k is below the tile count. */
  lemma CeilDivBound(n: nat, d: nat, k: nat)
    requires d > 0
    ensures k * d < n <==> k < CeilDiv(n, d)
  {
    var q := CeilDiv(n, d);
    assert q * d <= n + d - 1 < q * d + d;
    if k < q {
      Arith.MulMonotone(k + 1, q, d);
      assert (k + 1) * d == k * d + d;
    } else {
      Arith.MulMonotone(q, k, d);
    }
  }

  /** Every tile of the grid lies inside the raster, is non-empty and is at most one chunk. */
  lemma TileInBounds(g: Layout, p: Pos)
    requires g.Valid() && InGrid(g, p)
    ensures var t := TileAt(g, p);
      && 0 <= t.xStart < t.xEnd <= g.columns
      && 0 <= t.yStart < t.yEnd <= g.lines
      && t.xEnd - t.xStart <= g.colStep
      && t.yEnd - t.yStart <= g.rowStep
  {
    CeilDivBound(g.columns, g.colStep, p.col);
    CeilDivBound(g.lines, g.rowStep, p.row);
  }

  /** Clipped, never padded: a tile is a full chunk unless it ends at the raster edge. */
  lemma TileClipped(g: Layout, p: Pos)
    requires g.Valid() && InGrid(g, p)
    ensures var t := TileAt(g, p);
      && (t.xEnd - t.xStart == g.colStep || t.xEnd == g.columns)
      && (t.yEnd - t.yStart == g.rowStep || t.yEnd == g.lines)
  {
  }

  /** A tile reaches the last column exactly when it is in the last tile column. */
  lemma LastColumnIff(g: Layout, p: Pos)
    requires g.Valid() && InGrid(g, p)
    ensures TileAt(g, p).xEnd == g.columns <==> p.col + 1 == Cols(g)
  {
    CeilDivBound(g.columns, g.colStep, p.col + 1);
    assert (p.col + 1) * g.colStep == p.col * g.colStep + g.colStep;
  }

  lemma LastRowIff(g: Layout, p: Pos)
    requires g.Valid() && InGrid(g, p)
    ensures TileAt(g, p).yEnd == g.lines <==> p.row + 1 == Rows(g)
  {
    CeilDivBound(g.lines, g.rowStep, p.row + 1);
    assert (p.row + 1) * g.rowStep == p.row * g.rowStep + g.rowStep;
  }

  /** The grid has at least one tile, and the bottom-right one has the highest rank. */
  lemma IndexBounds(g: Layout, p: Pos)
    requires g.Valid() && InGrid(g, p)
    ensures Index(g, p) < TileCount(g)
    ensures Index(g, p) == TileCount(g) - 1 <==> p.row + 1 == Rows(g) && p.col + 1 == Cols(g)
  {
    var R, C := Rows(g), Cols(g);
    Arith.MulMonotone(p.row + 1, R, C);
    assert (p.row + 1) * C == p.row * C + C;
    assert R * C == (R - 1) * C + C;
    if p.row + 1 < R {
      Arith.MulMonotone(p.row + 2, R, C);
      assert (p.row + 2) * C == p.row * C + C + C;
    }
  }

  /**
   * Before the bottom-right tile, one cursor step stays in the grid, raises
   * the row-major rank by one, and goes right or wraps to the next tile row.
   */
  lemma NextAdvances(g: Layout, p: Pos)
    requires g.Valid() && InGrid(g, p) && !IsLast(g, p)
    ensures InGrid(g, Next(g, p))
    ensures Index(g, Next(g, p)) == Index(g, p) + 1
    ensures Next(g, p) == Pos(p.row, p.col + 1) || Next(g, p) == Pos(p.row + 1, 0)
  {
    LastColumnIff(g, p);
    LastRowIff(g, p);
    if p.col + 1 == Cols(g) {
      assert (p.row + 1) * Cols(g) == p.row * Cols(g) + Cols(g);
    }
  }

  /**
   * The walk visits the tiles in row-major order: its k-th tile is the one of
   * rank k, and it is the bottom-right tile exactly when k is the last rank.
   * So the walk produces exactly TileCount(g) tiles before it is complete.
   */
  lemma {:induction false} WalkIndex(g: Layout, k: nat)
    requires g.Valid() && k < TileCount(g)
    ensures InGrid(g, PositionAfter(g, k))
    ensures Index(g, PositionAfter(g, k)) == k
    ensures IsLast(g, PositionAfter(g, k)) <==> k == TileCount(g) - 1
  {
    var p := PositionAfter(g, k);
    if k == 0 {
      assert Rows(g) > 0 && Cols(g) > 0 by {
        CeilDivBound(g.lines, g.rowStep, 0);
        CeilDivBound(g.columns, g.colStep, 0);
      }
    } else {
      var q := PositionAfter(g, k - 1);
      WalkIndex(g, k - 1);
      NextAdvances(g, q);
    }
    IndexBounds(g, p);
    LastColumnIff(g, p);
    LastRowIff(g, p);
  }

  /**
   * The cursor arithmetic of one step: from the origin of tile k - 1, add
   * colStep to the column origin, and on reaching or passing the last column
   * go to column 0 and add rowStep to the line origin; the result is the
   * origin of tile k.
   */
  lemma CursorStep(g: Layout, k: nat)
    requires g.Valid() && 0 < k
    ensures var q, p := PositionAfter(g, k - 1), PositionAfter(g, k);
      var x := q.col * g.colStep + g.colStep;
      if x >= g.columns
      then p.col * g.colStep == 0 && p.row * g.rowStep == q.row * g.rowStep + g.rowStep
      else p.col * g.colStep == x && p.row * g.rowStep == q.row * g.rowStep
  {
    var q := PositionAfter(g, k - 1);
    assert (q.row + 1) * g.rowStep == q.row * g.rowStep + g.rowStep;
    assert (q.col + 1) * g.colStep == q.col * g.colStep + g.colStep;
  }

  /** The walk's tiles cover the raster: pixel (y, x) lies in tile (y / rowStep, x / colStep). */
  lemma TilesCover(g: Layout, y: nat, x: nat)
    requires g.Valid() && y < g.lines && x < g.columns
    ensures InGrid(g, Pos(y / g.rowStep, x / g.colStep))
    ensures var t := TileAt(g, Pos(y / g.rowStep, x / g.colStep));
      t.yStart <= y < t.yEnd && t.xStart <= x < t.xEnd
  {
    var row, col := y / g.rowStep, x / g.colStep;
    assert y == row * g.rowStep + y % g.rowStep;
    assert x == col * g.colStep + x % g.colStep;
    CeilDivBound(g.lines, g.rowStep, row);
    CeilDivBound(g.columns, g.colStep, col);
  }

  /** ... and no two tiles overlap: a tile holding pixel (y, x) is that one. */
  lemma TilesDisjoint(g: Layout, p: Pos, y: nat, x: nat)
    requires g.Valid()
    requires var t := TileAt(g, p); t.yStart <= y < t.yEnd && t.xStart <= x < t.xEnd
    ensures p == Pos(y / g.rowStep, x / g.colStep)
  {
    Arith.DivUnique(y, g.rowStep, p.row);
    Arith.DivUnique(x, g.colStep, p.col);
  }

  /** Pixel (y, x) lies inside window t. */
  predicate Contains(t: Window, y: nat, x: nat)
  {
    t.yStart <= y < t.yEnd && t.xStart <= x < t.xEnd
  }

  /** A valid layout has at least one tile. */
  lemma TileCountPositive(g: Layout)
    requires g.Valid()
    ensures TileCount(g) > 0
  {
    CeilDivBound(g.lines, g.rowStep, 0);
    CeilDivBound(g.columns, g.colStep, 0);
    Arith.MulMonotone(1, Rows(g), Cols(g));
  }

  /** Distinct grid positions have distinct row-major ranks. */
  lemma IndexInjective(g: Layout, p: Pos, q: Pos)
    requires g.Valid() && InGrid(g, p) && InGrid(g, q)
    requires Index(g, p) == Index(g, q)
    ensures p == q
  {
    var C := Cols(g);
    var n := Index(g, p);
    assert (p.row + 1) * C == p.row * C + C;
    assert (q.row + 1) * C == q.row * C + C;
    Arith.DivUnique(n, C, p.row);
    Arith.DivUnique(n, C, q.row);
  }

  /** The walk reads every pixel: some tile k < TileCount(g) of the walk contains (y, x). */
  lemma WalkCovers(g: Layout, y: nat, x: nat)
    requires g.Valid() && y < g.lines && x < g.columns
    ensures exists k :: 0 <= k < TileCount(g) && Contains(TileAt(g, PositionAfter(g, k)), y, x)
  {
    var p := Pos(y / g.rowStep, x / g.colStep);
    TilesCover(g, y, x);
    IndexBounds(g, p);
    var k := Index(g, p);
    WalkIndex(g, k);
    IndexInjective(g, PositionAfter(g, k), p);
    assert Contains(TileAt(g, PositionAfter(g, k)), y, x);
  }

  /** No two calls of the walk read overlapping tiles: a pixel is read by exactly one call. */
  lemma WalkDisjoint(g: Layout, k1: nat, k2: nat, y: nat, x: nat)
    requires g.Valid() && k1 < TileCount(g) && k2 < TileCount(g)
    ensures (Contains(TileAt(g, PositionAfter(g, k1)), y, x) &&
             Contains(TileAt(g, PositionAfter(g, k2)), y, x)) ==> k1 == k2
  {
    if Contains(TileAt(g, PositionAfter(g, k1)), y, x) && Contains(TileAt(g, PositionAfter(g, k2)), y, x) {
      TilesDisjoint(g, PositionAfter(g, k1), y, x);
      TilesDisjoint(g, PositionAfter(g, k2), y, x);
      WalkIndex(g, k1);
      WalkIndex(g, k2);
    }
  }

  /**
   * A 250 x 250 raster with chunk shape (100, 100) takes nine tiles of
   * 100 x 100, 100 x 100, 100 x 50 (three times over the tile rows, the
   * last row 50 lines high), only the ninth being the bottom-right one.
   */
  lemma Walk250()
    ensures var g := Layout(250, 250, 100, 100);
      && TileCount(g) == 9
      && TileAt(g, PositionAfter(g, 0)) == Window(0, 100, 0, 100)
      && TileAt(g, PositionAfter(g, 1)) == Window(100, 200, 0, 100)
      && TileAt(g, PositionAfter(g, 2)) == Window(200, 250, 0, 100)
      && TileAt(g, PositionAfter(g, 3)) == Window(0, 100, 100, 200)
      && TileAt(g, PositionAfter(g, 4)) == Window(100, 200, 100, 200)
      && TileAt(g, PositionAfter(g, 5)) == Window(200, 250, 100, 200)
      && TileAt(g, PositionAfter(g, 6)) == Window(0, 100, 200, 250)
      && TileAt(g, PositionAfter(g, 7)) == Window(100, 200, 200, 250)
      && TileAt(g, PositionAfter(g, 8)) == Window(200, 250, 200, 250)
      && (forall k :: 0 <= k < 8 ==> !IsLast(g, PositionAfter(g, k)))
      && IsLast(g, PositionAfter(g, 8))
  {
    var g := Layout(250, 250, 100, 100);
    assert TileCount(g) == 9;
    forall k | 0 <= k < 9
      ensures IsLast(g, PositionAfter(g, k)) <==> k == 8
    {
      WalkIndex(g, k);
    }
    assert PositionAfter(g, 8) == Pos(2, 2) by {
      assert PositionAfter(g, 1) == Pos(0, 1);
      assert PositionAfter(g, 2) == Pos(0, 2);
      assert PositionAfter(g, 3) == Pos(1, 0);
      assert PositionAfter(g, 4) == Pos(1, 1);
      assert PositionAfter(g, 5) == Pos(1, 2);
      assert PositionAfter(g, 6) == Pos(2, 0);
      assert PositionAfter(g, 7) == Pos(2, 1);
    }
  }
}
