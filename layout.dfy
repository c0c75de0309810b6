/**
  Flat, row-major, channel-interleaved image buffers.

  Every buffer of the mosaic engine (the source image, a resized tile, the
  square crop and the output canvas) stores pixel (y, x), channel k of an
  image `width` pixels wide with `chs` channels at offset
  `y * width * chs + x * chs + k`. This module names that offset, its inverse,
  and the split of a canvas position into a grid cell and an offset inside it.
 */
module Layout {

  /** One sample of an 8-bit image (`unsigned char`). */
  newtype byte = x: int | 0 <= x < 256

  /** A sample position: row `y`, column `x`, channel `k`. */
  datatype Pos = Pos(y: nat, x: nat, k: nat)

  /** The flat offset of `p` in an image `width` pixels wide with `chs` channels. */
  function Index(width: nat, chs: nat, p: Pos): nat
  {
    p.y * width * chs + p.x * chs + p.k
  }

  predicate InImage(width: nat, height: nat, chs: nat, p: Pos)
  {
    p.y < height && p.x < width && p.k < chs
  }

  /** The position stored at flat offset `i` (the inverse of Index). */
  function PosOf(width: nat, chs: nat, i: nat): Pos
  {
    if width == 0 || chs == 0 then Pos(0, 0, 0)
    else Pos(i / chs / width, i / chs % width, i % chs)
  }

  /** Lexicographic order on positions: the order in which nested y, x, k loops visit them. */
  predicate Before(p: Pos, q: Pos)
  {
    p.y < q.y || (p.y == q.y && (p.x < q.x || (p.x == q.x && p.k < q.k)))
  }

  // ---------------------------------------------------------------------
  // Arithmetic helpers

  lemma MulLe(a: nat, b: nat, c: nat)
    requires a <= b
    ensures a * c <= b * c
  {
  }

  lemma MulSign(k: int, d: int)
    requires d > 0
    ensures k >= 1 ==> k * d >= d
    ensures k <= -1 ==> k * d <= -d
  {
  }

  lemma DivModUnique(n: int, d: int, q: int, r: int)
    requires d > 0 && 0 <= r < d && n == q * d + r
    ensures n / d == q && n % d == r
  {
    var q', r' := n / d, n % d;
    assert (q - q') * d == q * d - q' * d;
    MulSign(q - q', d);
  }

  lemma DivLt(n: nat, d: nat, m: nat)
    requires d > 0 && n < m * d
    ensures n / d < m
  {
    if m <= n / d {
      MulLe(m, n / d, d);
    }
  }

  // ---------------------------------------------------------------------
  // Index and PosOf are inverse bijections between InImage and [0, width*height*chs)

  lemma {:induction false} IndexInBounds(width: nat, height: nat, chs: nat, p: Pos)
    requires InImage(width, height, chs, p)
    ensures Index(width, chs, p) < width * height * chs
  {
    var row := p.y * width + p.x;
    assert Index(width, chs, p) == row * chs + p.k;
    MulLe(row + 1, p.y * width + width, chs);
    assert p.y * width + width == (p.y + 1) * width;
    MulLe(p.y + 1, height, width);
    MulLe((p.y + 1) * width, height * width, chs);
    assert (row + 1) * chs == row * chs + chs;
  }

  lemma {:induction false} PosOfIndex(width: nat, chs: nat, p: Pos)
    requires p.x < width && p.k < chs
    ensures PosOf(width, chs, Index(width, chs, p)) == p
  {
    var row := p.y * width + p.x;
    assert Index(width, chs, p) == row * chs + p.k;
    DivModUnique(Index(width, chs, p), chs, row, p.k);
    DivModUnique(row, width, p.y, p.x);
  }

  lemma {:induction false} IndexPosOf(width: nat, chs: nat, i: nat)
    requires width > 0 && chs > 0
    ensures Index(width, chs, PosOf(width, chs, i)) == i
  {
    var p := PosOf(width, chs, i);
    var row := i / chs;
    assert i == row * chs + p.k;
    assert row == p.y * width + p.x;
    assert (p.y * width + p.x) * chs == p.y * width * chs + p.x * chs;
  }

  lemma {:induction false} PosOfInImage(width: nat, height: nat, chs: nat, i: nat)
    requires i < width * height * chs
    ensures width > 0 && height > 0 && chs > 0
    ensures InImage(width, height, chs, PosOf(width, chs, i))
  {
    assert width > 0 && height > 0 && chs > 0;
    DivLt(i, chs, width * height);
    assert width * height == height * width;
    DivLt(i / chs, width, height);
  }

  /** The sample at position `p` of a `width` x `height` image with `chs` channels. */
  function Sample(buf: seq<byte>, width: nat, height: nat, chs: nat, p: Pos): byte
    requires |buf| == width * height * chs && InImage(width, height, chs, p)
  {
    IndexInBounds(width, height, chs, p);
    buf[Index(width, chs, p)]
  }

  // ---------------------------------------------------------------------
  // Cells of a grid of square blocks, each `t` pixels on a side

  /** The grid row of the block holding `p`. */
  function CellRow(t: nat, p: Pos): nat
  {
    if t == 0 then 0 else p.y / t
  }

  /** The grid column of the block holding `p`. */
  function CellCol(t: nat, p: Pos): nat
  {
    if t == 0 then 0 else p.x / t
  }

  /** The position of `p` inside its block: the position it has in the tile. */
  function Local(t: nat, p: Pos): Pos
  {
    if t == 0 then p else Pos(p.y % t, p.x % t, p.k)
  }

  /** The canvas position of tile position `l` when the tile fills cell (row, col). */
  function Block(t: nat, row: nat, col: nat, l: Pos): Pos
  {
    Pos(row * t + l.y, col * t + l.x, l.k)
  }

  lemma {:induction false} CellOfBlock(t: nat, row: nat, col: nat, l: Pos)
    requires l.y < t && l.x < t
    ensures CellRow(t, Block(t, row, col, l)) == row
    ensures CellCol(t, Block(t, row, col, l)) == col
    ensures Local(t, Block(t, row, col, l)) == l
  {
    DivModUnique(row * t + l.y, t, row, l.y);
    DivModUnique(col * t + l.x, t, col, l.x);
  }

  lemma BlockOfCell(t: nat, p: Pos)
    requires t > 0
    ensures Block(t, CellRow(t, p), CellCol(t, p), Local(t, p)) == p
  {
  }

  /** The offset of a tile sample in the canvas, written as `copy_tile_to_image` computes it. */
  lemma BlockIndex(t: nat, width: nat, chs: nat, row: nat, col: nat, l: Pos)
    ensures (row * t) * width * chs + (col * t) * chs + l.y * width * chs + l.x * chs + l.k
            == Index(width, chs, Block(t, row, col, l))
  {
    assert (row * t + l.y) * width == (row * t) * width + l.y * width;
    assert ((row * t) * width + l.y * width) * chs == (row * t) * width * chs + l.y * width * chs;
    assert (col * t + l.x) * chs == (col * t) * chs + l.x * chs;
  }

  lemma {:induction false} BlockInCanvas(t: nat, cols: nat, rows: nat, chs: nat, row: nat, col: nat, l: Pos)
    requires row < rows && col < cols && InImage(t, t, chs, l)
    ensures InImage(cols * t, rows * t, chs, Block(t, row, col, l))
  {
    MulLe(row + 1, rows, t);
    MulLe(col + 1, cols, t);
  }

  lemma {:induction false} CellInGrid(t: nat, cols: nat, rows: nat, chs: nat, p: Pos)
    requires t > 0 && InImage(cols * t, rows * t, chs, p)
    ensures CellRow(t, p) < rows && CellCol(t, p) < cols
    ensures InImage(t, t, chs, Local(t, p))
  {
    DivLt(p.y, t, rows);
    DivLt(p.x, t, cols);
  }
}
