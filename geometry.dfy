/**
  Dimension planning: from the source image's width and height and the
  requested number of tiles, the tile edge, the grid of cells and the size of
  the canvas (main.c, lines 78-98).

  `(int) sqrt(total_pixels / amount_of_tiles)` divides in integers first and
  then truncates the square root; the model uses the exact integer square root
  of the integer quotient.
 */
module Geometry {

  /** The integer square root, digit by digit in base 4: twice the root of `n / 4`, plus one if that still fits. */
  function Isqrt(n: nat): nat
  {
    if n < 4 then (if n == 0 then 0 else 1)
    else
      var s := 2 * Isqrt(n / 4);
      if (s + 1) * (s + 1) <= n then s + 1 else s
  }

  /** Isqrt(n) is the largest `r` with `r * r <= n`. */
  lemma {:induction false} IsqrtBounds(n: nat)
    ensures Isqrt(n) * Isqrt(n) <= n < (Isqrt(n) + 1) * (Isqrt(n) + 1)
  {
    if n >= 4 {
      var h := Isqrt(n / 4);
      IsqrtBounds(n / 4);
      DoubleRoot(n, h);
    }
  }

  /** A root of `n / 4` doubled brackets the root of `n`. */
  lemma DoubleRoot(n: nat, h: nat)
    requires h * h <= n / 4 < (h + 1) * (h + 1)
    ensures (2 * h) * (2 * h) <= n < (2 * h + 2) * (2 * h + 2)
  {
    var q, s := n / 4, 2 * h;
    assert n == 4 * q + n % 4;
    assert s * s == 4 * (h * h);
    assert (s + 2) * (s + 2) == 4 * ((h + 1) * (h + 1));
  }

  lemma SquareLe(a: nat, b: nat)
    requires a <= b
    ensures a * a <= b * b
  {
  }

  /** Isqrt is the only value with r*r <= n < (r+1)*(r+1). */
  lemma IsqrtUnique(n: nat, r: nat)
    requires r * r <= n < (r + 1) * (r + 1)
    ensures r == Isqrt(n)
  {
    var s := Isqrt(n);
    IsqrtBounds(n);
    if r < s {
      SquareLe(r + 1, s);
    } else if s < r {
      SquareLe(s + 1, r);
    }
  }

  /** The tile edge `tile_pixel_size` for a `width` x `height` source and `tiles` requested tiles. */
  function TileEdge(width: nat, height: nat, tiles: nat): nat
    requires tiles >= 1
  {
    Isqrt(PixelsPerTile(width, height, tiles))
  }

  /** `total_pixels / amount_of_tiles`, divided in integers. */
  function PixelsPerTile(width: nat, height: nat, tiles: nat): nat
    requires tiles >= 1
  {
    width * height / tiles
  }

  /** The grid derived from the source image: tile edge, columns (`amount_width`) and rows (`amount_height`). */
  datatype Grid = Grid(tile: nat, cols: nat, rows: nat)
  {
    /** `new_width`: the canvas width in pixels. */
    function Width(): nat { cols * tile }
    /** `new_height`: the canvas height in pixels. */
    function Height(): nat { rows * tile }
  }

  /**
    The grid for a source image. The source divides by the tile edge without
    checking it, so a zero tile edge is excluded here (see ZeroTileEdgeIff).
   */
  function Plan(width: nat, height: nat, tiles: nat): (g: Grid)
    requires tiles >= 1 && TileEdge(width, height, tiles) >= 1
  {
    GridFor(width, height, TileEdge(width, height, tiles))
  }

  /** As many whole `t` x `t` cells as fit in each dimension; the border that is left over is dropped. */
  function GridFor(width: nat, height: nat, t: nat): (g: Grid)
    requires t >= 1
  {
    Grid(t, width / t, height / t)
  }

  /** The canvas of the grid fits in the source and leaves less than a tile's edge over in each dimension. */
  lemma PlanFits(width: nat, height: nat, tiles: nat)
    requires tiles >= 1 && TileEdge(width, height, tiles) >= 1
    ensures var g := Plan(width, height, tiles);
      g.Width() <= width < g.Width() + g.tile && g.Height() <= height < g.Height() + g.tile
  {
    var t := TileEdge(width, height, tiles);
    DivBounds(width, t);
    DivBounds(height, t);
  }

  lemma DivBounds(n: nat, d: nat)
    requires d > 0
    ensures n / d * d <= n < n / d * d + d
  {
    assert n == n / d * d + n % d;
  }

  /** The tile edge is the largest `t` whose square fits in the integer quotient. */
  lemma {:induction false} TileEdgeIsLargest(width: nat, height: nat, tiles: nat, t: nat)
    requires tiles >= 1 && t * t <= PixelsPerTile(width, height, tiles)
    ensures t <= TileEdge(width, height, tiles)
  {
    var e := TileEdge(width, height, tiles);
    IsqrtBounds(PixelsPerTile(width, height, tiles));
    if e < t {
      SquareLe(e + 1, t);
    }
  }

  /** The source divides by zero at lines 86-87 exactly when fewer pixels than tiles are available. */
  lemma {:induction false} ZeroTileEdgeIff(width: nat, height: nat, tiles: nat)
    requires tiles >= 1
    ensures TileEdge(width, height, tiles) == 0 <==> width * height < tiles
  {
    var q := width * height / tiles;
    IsqrtBounds(q);
    if width * height < tiles {
      assert q == 0;
    } else {
      assert q >= 1;
      SquareLe(1, TileEdge(width, height, tiles) + 1);
    }
  }

  /** The grid has at least one cell exactly when the tile fits in both dimensions. */
  lemma {:induction false} NonEmptyGridIff(width: nat, height: nat, tiles: nat)
    requires tiles >= 1 && TileEdge(width, height, tiles) >= 1
    ensures var g := Plan(width, height, tiles);
      (g.cols >= 1 && g.rows >= 1) <==> (g.tile <= width && g.tile <= height)
  {
    var g := Plan(width, height, tiles);
    PlanFits(width, height, tiles);
    if g.cols >= 1 {
      MulLe1(g.cols, g.tile);
    }
    if g.rows >= 1 {
      MulLe1(g.rows, g.tile);
    }
  }

  lemma MulLe1(a: nat, b: nat)
    requires a >= 1
    ensures b <= a * b
  {
  }

  /** A positive tile edge does not guarantee a non-empty grid: a 1 x 100 source asked for one tile. */
  lemma DegenerateGridExample()
    ensures TileEdge(1, 100, 1) == 10
    ensures Plan(1, 100, 1) == Grid(10, 0, 10)
  {
    IsqrtUnique(100, 10);
  }

  /** A 100 x 100 source asked for 25 tiles: 20-pixel tiles in a 5 x 5 grid, nothing cropped. */
  lemma HundredSquareExample()
    ensures TileEdge(100, 100, 25) == 20
    ensures Plan(100, 100, 25) == Grid(20, 5, 5)
    ensures Plan(100, 100, 25).Width() == 100 && Plan(100, 100, 25).Height() == 100
  {
    IsqrtUnique(400, 20);
  }
}
