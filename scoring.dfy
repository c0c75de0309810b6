/**
  Scoring a candidate tile against one grid cell (`score_tile_euclidean`,
  main.c lines 230-249).

  The score sums, over all `tileSize * tileSize` tile pixels and channels 0, 1
  and 2, the squared difference between the tile sample and the sample of ONE
  source pixel: the pixel at the cell's top-left corner (the "anchor"). The
  source offset at lines 237-238 does not move with the loop counters, so the
  rest of the cell's footprint in the source image is never read; the model
  keeps this literally (see ScoreReadsOnlyAnchor).

  The source accumulates `double`s computed with `pow`; every term is the
  square of a difference of two bytes, so scores are modelled exactly as
  natural numbers.
 */
module Scoring {
  import opened Layout

  function Sq(d: int): nat
  {
    if d < 0 then (-d) * (-d) else d * d
  }

  /** The squared distance, over channels 0..2, between source samples at `a` and tile samples at `t`. */
  function Rgb3Distance(src: seq<byte>, a: nat, tile: seq<byte>, t: nat): nat
    requires a + 3 <= |src| && t + 3 <= |tile|
  {
    Sq(src[a] as int - tile[t] as int)
    + Sq(src[a + 1] as int - tile[t + 1] as int)
    + Sq(src[a + 2] as int - tile[t + 2] as int)
  }

  /** `index_original`: the offset of the top-left pixel of cell (row, col) in the source image. */
  function AnchorIndex(width: nat, chs: nat, tileSize: nat, row: nat, col: nat): nat
  {
    Index(width, chs, Pos(row * tileSize, col * tileSize, 0))
  }

  /** The anchor of every cell of a grid that fits in the source lies in the source buffer. */
  lemma {:induction false} AnchorInBounds(width: nat, height: nat, chs: nat, tileSize: nat,
                                          cols: nat, rows: nat, row: nat, col: nat)
    requires chs >= 3 && tileSize >= 1
    requires cols * tileSize <= width && rows * tileSize <= height
    requires row < rows && col < cols
    ensures AnchorIndex(width, chs, tileSize, row, col) + 3 <= width * height * chs
  {
    BlockInCanvas(tileSize, cols, rows, chs, row, col, Pos(0, 0, 2));
    var p := Block(tileSize, row, col, Pos(0, 0, 2));
    assert p == Pos(row * tileSize, col * tileSize, 2);
    IndexInBounds(width, height, chs, p);
  }

  /** The score contributed by the first `n` tile pixels, in row-major order. */
  function PixelSum(src: seq<byte>, a: nat, tile: seq<byte>, chs: nat, n: nat): nat
    requires chs >= 3 && a + 3 <= |src| && n * chs <= |tile|
  {
    if n == 0 then 0
    else
      assert (n - 1) * chs + chs == n * chs;
      PixelSum(src, a, tile, chs, n - 1) + Rgb3Distance(src, a, tile, (n - 1) * chs)
  }

  /** The value `score_tile_euclidean` returns for a tile in cell (row, col). */
  function TileScore(src: seq<byte>, width: nat, chs: nat, tile: seq<byte>, tileSize: nat, row: nat, col: nat): nat
    requires chs >= 3 && |tile| == tileSize * tileSize * chs
    requires AnchorIndex(width, chs, tileSize, row, col) + 3 <= |src|
  {
    PixelSum(src, AnchorIndex(width, chs, tileSize, row, col), tile, chs, tileSize * tileSize)
  }

  /**
    `score_tile_euclidean`: the outer loop runs over the tile's rows, the
    inner loop (AddTileRow) over the pixels of one row, each pixel compared
    with the anchor pixel.
   */
  method ScoreTileEuclidean(src: seq<byte>, width: nat, chs: nat, tile: seq<byte>, col: nat, row: nat, tileSize: nat)
    returns (score: nat)
    requires chs >= 3 && |tile| == tileSize * tileSize * chs
    requires AnchorIndex(width, chs, tileSize, row, col) + 3 <= |src|
    ensures score == TileScore(src, width, chs, tile, tileSize, row, col)
  {
    ghost var a := AnchorIndex(width, chs, tileSize, row, col);
    ghost var n0: nat := 0;
    score := 0;
    var i := 0;
    while i < tileSize
      invariant i <= tileSize && n0 == i * tileSize
      invariant n0 * chs <= |tile|
      invariant score == PixelSum(src, a, tile, chs, n0)
    {
      NextRowFits(i, tileSize);
      MulLe(n0 + tileSize, tileSize * tileSize, chs);
      score := AddTileRow(src, width, chs, tile, col, row, tileSize, i, a, n0, score);
      i, n0 := i + 1, n0 + tileSize;
    }
  }

  /**
    The inner loop of `score_tile_euclidean` (main.c lines 236-244): adds the
    distances of tile row `i`, whose first pixel is pixel `n0` of the tile, to
    `score0`.
   */
  method AddTileRow(src: seq<byte>, width: nat, chs: nat, tile: seq<byte>, col: nat, row: nat, tileSize: nat,
                    i: nat, ghost a: nat, ghost n0: nat, score0: nat)
    returns (score: nat)
    requires chs >= 3 && a == AnchorIndex(width, chs, tileSize, row, col) && a + 3 <= |src|
    requires n0 == i * tileSize && n0 * chs <= |tile| && (n0 + tileSize) * chs <= |tile|
    requires score0 == PixelSum(src, a, tile, chs, n0)
    ensures score == PixelSum(src, a, tile, chs, n0 + tileSize)
  {
    score := score0;
    var j := 0;
    while j < tileSize
      invariant j <= tileSize
      invariant (n0 + j) * chs <= |tile|
      invariant score == PixelSum(src, a, tile, chs, n0 + j)
    {
      var indexOriginal, indexTile := PixelOffsets(width, chs, tileSize, row, col, i, j);
      MulLe(n0 + j + 1, n0 + tileSize, chs);
      PixelStep(src, a, tile, chs, n0 + j);
      score := score + Rgb3Distance(src, indexOriginal, tile, indexTile);
      j := j + 1;
    }
  }

  /**
    `index_original` and `index_tile` for tile pixel (i, j) (main.c lines
    237-239). Decoded, the first offset is channel 0 of the source pixel at
    the cell's top-left corner, whatever i and j are; the second is channel 0
    of pixel (i, j) of the tile, which is tile pixel `i * tileSize + j` in
    row-major order.
   */
  method PixelOffsets(width: nat, chs: nat, tileSize: nat, row: nat, col: nat, i: nat, j: nat)
    returns (indexOriginal: nat, indexTile: nat)
    ensures indexOriginal == AnchorIndex(width, chs, tileSize, row, col)
    ensures indexTile == (i * tileSize + j) * chs
    ensures chs >= 1 && col * tileSize < width ==>
      PosOf(width, chs, indexOriginal) == Pos(row * tileSize, col * tileSize, 0)
    ensures chs >= 1 && j < tileSize ==> PosOf(tileSize, chs, indexTile) == Pos(i, j, 0)
  {
    AnchorOffset(width, chs, tileSize, row, col);
    TileOffset(i, j, tileSize, chs);
    indexOriginal := row * tileSize * width * chs + col * tileSize * chs;
    indexTile := i * tileSize * chs + j * chs;
    if chs >= 1 && col * tileSize < width {
      PosOfIndex(width, chs, Pos(row * tileSize, col * tileSize, 0));
    }
    if chs >= 1 && j < tileSize {
      PosOfIndex(tileSize, chs, Pos(i, j, 0));
    }
  }

  lemma TileOffset(i: nat, j: nat, t: nat, chs: nat)
    ensures i * t * chs + j * chs == (i * t + j) * chs
    ensures (i * t + j + 1) * chs == (i * t + j) * chs + chs
  {
  }

  lemma AnchorOffset(width: nat, chs: nat, tileSize: nat, row: nat, col: nat)
    ensures row * tileSize * width * chs + col * tileSize * chs == AnchorIndex(width, chs, tileSize, row, col)
  {
  }

  /** One more pixel adds its distance to the anchor; its samples lie inside the tile. */
  lemma PixelStep(src: seq<byte>, a: nat, tile: seq<byte>, chs: nat, n: nat)
    requires chs >= 3 && a + 3 <= |src| && (n + 1) * chs <= |tile|
    ensures n * chs + 3 <= |tile|
    ensures PixelSum(src, a, tile, chs, n + 1) == PixelSum(src, a, tile, chs, n) + Rgb3Distance(src, a, tile, n * chs)
  {
    assert (n + 1) * chs == n * chs + chs;
  }

  lemma NextRowFits(i: nat, t: nat)
    requires i < t
    ensures (i + 1) * t == i * t + t <= t * t
  {
    MulLe(i + 1, t, t);
  }

  // ---------------------------------------------------------------------
  // Properties of the score

  /**
    The score reads nothing of the source image but the three anchor samples:
    two source images that agree there give every tile the same score.
   */
  lemma {:induction false} PixelSumReadsOnlyAnchor(src1: seq<byte>, src2: seq<byte>, a: nat, tile: seq<byte>, chs: nat, n: nat)
    requires chs >= 3 && a + 3 <= |src1| && a + 3 <= |src2| && n * chs <= |tile|
    requires src1[a..a + 3] == src2[a..a + 3]
    ensures PixelSum(src1, a, tile, chs, n) == PixelSum(src2, a, tile, chs, n)
  {
    if n > 0 {
      assert (n - 1) * chs + chs == n * chs;
      PixelSumReadsOnlyAnchor(src1, src2, a, tile, chs, n - 1);
      assert src1[a] == src1[a..a + 3][0] && src1[a + 1] == src1[a..a + 3][1] && src1[a + 2] == src1[a..a + 3][2];
      assert src2[a] == src2[a..a + 3][0] && src2[a + 1] == src2[a..a + 3][1] && src2[a + 2] == src2[a..a + 3][2];
    }
  }

  lemma ScoreReadsOnlyAnchor(src1: seq<byte>, src2: seq<byte>, width: nat, chs: nat, tile: seq<byte>,
                             tileSize: nat, row: nat, col: nat)
    requires chs >= 3 && |tile| == tileSize * tileSize * chs
    requires AnchorIndex(width, chs, tileSize, row, col) + 3 <= |src1|
    requires AnchorIndex(width, chs, tileSize, row, col) + 3 <= |src2|
    requires var a := AnchorIndex(width, chs, tileSize, row, col); src1[a..a + 3] == src2[a..a + 3]
    ensures TileScore(src1, width, chs, tile, tileSize, row, col) == TileScore(src2, width, chs, tile, tileSize, row, col)
  {
    PixelSumReadsOnlyAnchor(src1, src2, AnchorIndex(width, chs, tileSize, row, col), tile, chs, tileSize * tileSize);
  }

  /** Channels 0..2 of tile pixel `p`. */
  function Rgb(tile: seq<byte>, chs: nat, p: nat): (byte, byte, byte)
    requires chs >= 3 && (p + 1) * chs <= |tile|
  {
    assert (p + 1) * chs == p * chs + chs;
    (tile[p * chs], tile[p * chs + 1], tile[p * chs + 2])
  }

  /**
    A tile whose first `n` pixels all have the colour of pixel 0 scores `n`
    times that pixel's distance to the anchor.
   */
  lemma {:induction false} UniformPixelSum(src: seq<byte>, a: nat, tile: seq<byte>, chs: nat, n: nat)
    requires chs >= 3 && a + 3 <= |src| && n * chs <= |tile| && n >= 1
    requires forall p :: 0 <= p < n ==> Rgb(tile, chs, p) == Rgb(tile, chs, 0)
    ensures PixelSum(src, a, tile, chs, n) == n * Rgb3Distance(src, a, tile, 0)
  {
    var q := n - 1;
    var d := Rgb3Distance(src, a, tile, 0);
    MulSucc(q, chs);
    assert Rgb(tile, chs, q) == Rgb(tile, chs, 0);
    assert Rgb3Distance(src, a, tile, q * chs) == d;
    MulSucc(q, d);
    if q > 0 {
      MulLe(q, n, chs);
      UniformPixelSum(src, a, tile, chs, q);
    }
  }

  lemma MulSucc(q: nat, d: nat)
    ensures (q + 1) * d == q * d + d
  {
  }

  /**
    An example with a 1 x 1 source of colour (5, 5, 5) and one-pixel
    tiles: (10, 10, 10) and (0, 0, 0) both score 75, so the two candidates tie.
   */
  lemma TieExample(src: seq<byte>, light: seq<byte>, dark: seq<byte>)
    requires src == [5, 5, 5] && light == [10, 10, 10] && dark == [0, 0, 0]
    ensures TileScore(src, 1, 3, light, 1, 0, 0) == 75
    ensures TileScore(src, 1, 3, dark, 1, 0, 0) == 75
  {
    OriginCell(src, light);
    OriginCell(src, dark);
    OnePixel(src, 0, light, 3);
    OnePixel(src, 0, dark, 3);
    ExampleDistances(src, light, dark);
  }

  /** In a one-pixel RGB source with one-pixel tiles, the only cell is anchored at offset 0. */
  lemma OriginCell(src: seq<byte>, tile: seq<byte>)
    requires |src| == 3 && |tile| == 3
    ensures TileScore(src, 1, 3, tile, 1, 0, 0) == PixelSum(src, 0, tile, 3, 1)
  {
    assert AnchorIndex(1, 3, 1, 0, 0) == 0;
  }

  lemma ExampleDistances(src: seq<byte>, light: seq<byte>, dark: seq<byte>)
    requires src == [5, 5, 5] && light == [10, 10, 10] && dark == [0, 0, 0]
    ensures Rgb3Distance(src, 0, light, 0) == 75 && Rgb3Distance(src, 0, dark, 0) == 75
  {
  }

  /** A one-pixel tile scores the distance between its only pixel and the anchor. */
  lemma OnePixel(src: seq<byte>, a: nat, tile: seq<byte>, chs: nat)
    requires chs >= 3 && a + 3 <= |src| && chs <= |tile|
    ensures PixelSum(src, a, tile, chs, 1) == Rgb3Distance(src, a, tile, 0)
  {
    assert PixelSum(src, a, tile, chs, 0) == 0;
  }
}
