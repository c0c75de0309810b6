/**
  The collage (`struct collage`, main.h lines 18-33) and the parts of `main`
  that build it: planning the grid and allocating the canvas and the score
  table (main.c lines 71-115), the placement loop run for every candidate
  tile (lines 121-145), and `copy_tile_to_image` (lines 282-298).

  Candidate tiles arrive already cropped and resized to `tileSize` x
  `tileSize` pixels with `channels` channels; loading and resizing them are
  not part of this model.
 */
module Mosaic {
  import opened Layout
  import opened Geometry
  import opened Scoring
  import opened Placement

  class Collage {
    /** `original_img`, `channels`, `original_width`, `original_height`: the source image, never written. */
    const originalImg: seq<byte>
    const channels: nat
    const originalWidth: nat
    const originalHeight: nat

    /** `new_img`, `new_width`, `new_height`: the canvas. */
    const newImg: array<byte>
    const newWidth: nat
    const newHeight: nat

    /** `amount_width`, `amount_height`: the grid's columns and rows. */
    const amountWidth: nat
    const amountHeight: nat

    /** `score_table[row][col]`: the score of the tile shown in each cell, or Unfilled. */
    const scoreTable: array2<int>

    /** `tile_pixel_size`, a local of `main` that every placement step passes along. */
    const tileSize: nat

    /** The candidate tiles placed so far, in order. */
    ghost var history: seq<seq<byte>>

    /** The sizes fixed when the collage is built. */
    ghost predicate Shape()
    {
      tileSize >= 1
      && |originalImg| == originalWidth * originalHeight * channels
      && newWidth == amountWidth * tileSize && newHeight == amountHeight * tileSize
      && newWidth <= originalWidth && newHeight <= originalHeight
      && newImg.Length == newWidth * newHeight * channels
      && scoreTable.Length0 == amountHeight && scoreTable.Length1 == amountWidth
    }

    ghost predicate Fits(tile: seq<byte>)
    {
      |tile| == tileSize * tileSize * channels
    }

    /** Every tile of `h` has the candidate size. */
    ghost predicate AllFit(h: seq<seq<byte>>)
    {
      forall k :: 0 <= k < |h| ==> Fits(h[k])
    }

    /** Canvas offset `i` lies in the block of cell (row, col). */
    ghost predicate InCell(i: nat, row: nat, col: nat)
    {
      var p := PosOf(newWidth, channels, i);
      CellRow(tileSize, p) == row && CellCol(tileSize, p) == col
    }

    /** The position inside its cell's block of canvas offset `i`. */
    ghost function LocalAt(i: nat): Pos
    {
      Local(tileSize, PosOf(newWidth, channels, i))
    }

    /** The tile sample that belongs at canvas offset `i` when `tile` fills that offset's cell. */
    ghost function TileSample(tile: seq<byte>, i: nat): byte
      requires Shape() && Fits(tile) && i < newImg.Length
    {
      CanvasOffset(i);
      Sample(tile, tileSize, tileSize, channels, LocalAt(i))
    }

    /** The anchor of cell (row, col) lies in the source image. */
    ghost predicate AnchorFits(row: nat, col: nat)
    {
      AnchorIndex(originalWidth, channels, tileSize, row, col) + 3 <= |originalImg|
    }

    /** The scores of the tiles `h` in cell (row, col), in order. */
    ghost function CellScores(h: seq<seq<byte>>, row: nat, col: nat): (ss: seq<nat>)
      requires |h| > 0 ==> channels >= 3 && AnchorFits(row, col)
      requires AllFit(h)
      ensures |ss| == |h|
      ensures forall k :: 0 <= k < |h| ==>
        ss[k] == TileScore(originalImg, originalWidth, channels, h[k], tileSize, row, col)
    {
      if |h| == 0 then []
      else
        var prefix := h[..|h| - 1];
        assert forall k :: 0 <= k < |prefix| ==> prefix[k] == h[k];
        CellScores(prefix, row, col) + [TileScore(originalImg, originalWidth, channels, h[|h| - 1], tileSize, row, col)]
    }

    /** Every cell's anchor lies in the source image. */
    ghost predicate AnchorsFit()
    {
      forall r, c :: 0 <= r < amountHeight && 0 <= c < amountWidth ==> AnchorFits(r, c)
    }

    /** The sample at canvas offset `i` after the tiles `h`: that of the winner of the offset's cell. */
    ghost function Shown(h: seq<seq<byte>>, i: nat): byte
      requires Shape() && channels >= 3 && AnchorsFit() && |h| > 0 && AllFit(h)
      requires i < newImg.Length
    {
      CanvasOffset(i);
      var p := PosOf(newWidth, channels, i);
      TileSample(h[Winner(CellScores(h, CellRow(tileSize, p), CellCol(tileSize, p)))], i)
    }

    /**
      The collage invariant: each cell records the greedy outcome of the tiles
      placed so far, and once any tile has been placed every canvas sample is
      that of its cell's winning tile.
     */
    ghost predicate Valid()
      reads this, scoreTable, newImg
    {
      Shape()
      && (|history| > 0 ==> channels >= 3 && AnchorsFit())
      && AllFit(history)
      && (forall r, c :: 0 <= r < amountHeight && 0 <= c < amountWidth ==>
            scoreTable[r, c] == BestScore(CellScores(history, r, c)))
      && (|history| > 0 ==> forall i :: 0 <= i < newImg.Length ==> newImg[i] == Shown(history, i))
    }

    /** Every canvas offset decodes to a position in some cell and back. */
    lemma CanvasOffset(i: nat)
      requires Shape() && i < newImg.Length
      ensures InImage(newWidth, newHeight, channels, PosOf(newWidth, channels, i))
      ensures Index(newWidth, channels, PosOf(newWidth, channels, i)) == i
      ensures CellRow(tileSize, PosOf(newWidth, channels, i)) < amountHeight
      ensures CellCol(tileSize, PosOf(newWidth, channels, i)) < amountWidth
      ensures InImage(tileSize, tileSize, channels, LocalAt(i))
      ensures var p := PosOf(newWidth, channels, i); Block(tileSize, CellRow(tileSize, p), CellCol(tileSize, p), LocalAt(i)) == p
    {
      var p := PosOf(newWidth, channels, i);
      PosOfInImage(newWidth, newHeight, channels, i);
      IndexPosOf(newWidth, channels, i);
      CellInGrid(tileSize, amountWidth, amountHeight, channels, p);
      BlockOfCell(tileSize, p);
    }

    lemma AllCanvasOffsets()
      requires Shape()
      ensures forall i :: 0 <= i < newImg.Length ==>
        && InImage(tileSize, tileSize, channels, LocalAt(i))
        && Index(newWidth, channels, PosOf(newWidth, channels, i)) == i
        && CellRow(tileSize, PosOf(newWidth, channels, i)) < amountHeight
        && CellCol(tileSize, PosOf(newWidth, channels, i)) < amountWidth
        && (var p := PosOf(newWidth, channels, i);
            Block(tileSize, CellRow(tileSize, p), CellCol(tileSize, p), LocalAt(i)) == p)
    {
      forall i | 0 <= i < newImg.Length
        ensures InImage(tileSize, tileSize, channels, LocalAt(i))
        ensures Index(newWidth, channels, PosOf(newWidth, channels, i)) == i
        ensures CellRow(tileSize, PosOf(newWidth, channels, i)) < amountHeight
        ensures CellCol(tileSize, PosOf(newWidth, channels, i)) < amountWidth
        ensures var p := PosOf(newWidth, channels, i);
          Block(tileSize, CellRow(tileSize, p), CellCol(tileSize, p), LocalAt(i)) == p
      {
        CanvasOffset(i);
      }
    }

    /** The canvas offset the source computes at lines 289-291 for tile position `l` of cell (row, col). */
    lemma BlockOffset(row: nat, col: nat, l: Pos)
      requires Shape() && row < amountHeight && col < amountWidth && InImage(tileSize, tileSize, channels, l)
      ensures var w := (row * tileSize) * newWidth * channels + (col * tileSize) * channels
                       + l.y * newWidth * channels + l.x * channels + l.k;
        && w == Index(newWidth, channels, Block(tileSize, row, col, l))
        && w < newImg.Length
        && PosOf(newWidth, channels, w) == Block(tileSize, row, col, l)
        && InCell(w, row, col) && LocalAt(w) == l
    {
      var b := Block(tileSize, row, col, l);
      BlockIndex(tileSize, newWidth, channels, row, col, l);
      BlockInCanvas(tileSize, amountWidth, amountHeight, channels, row, col, l);
      IndexInBounds(newWidth, newHeight, channels, b);
      PosOfIndex(newWidth, channels, b);
      CellOfBlock(tileSize, row, col, l);
    }

    /** With at least three channels, the anchor of every cell lies in the source image. */
    lemma AllAnchorsFit()
      requires Shape() && channels >= 3
      ensures AnchorsFit()
    {
      forall r, c | 0 <= r < amountHeight && 0 <= c < amountWidth
        ensures AnchorFits(r, c)
      {
        AnchorInBounds(originalWidth, originalHeight, channels, tileSize, amountWidth, amountHeight, r, c);
      }
    }

    /**
      The collage for a `width` x `height` source with `chs` channels and
      `tiles` requested tiles: the grid of Plan, a canvas of exactly
      `newWidth * newHeight * chs` samples, and every score-table cell Unfilled.
     */
    constructor (original: seq<byte>, width: nat, height: nat, chs: nat, tiles: nat)
      requires |original| == width * height * chs
      requires tiles >= 1 && TileEdge(width, height, tiles) >= 1
      ensures Valid() && history == []
      ensures fresh(newImg) && fresh(scoreTable)
      ensures originalImg == original && originalWidth == width && originalHeight == height && channels == chs
      ensures var g := Plan(width, height, tiles);
        tileSize == g.tile && amountWidth == g.cols && amountHeight == g.rows
        && newWidth == g.Width() && newHeight == g.Height()
      ensures newImg.Length == newWidth * newHeight * chs
      ensures forall r, c :: 0 <= r < amountHeight && 0 <= c < amountWidth ==> scoreTable[r, c] == Unfilled
    {
      originalImg, channels, originalWidth, originalHeight := original, chs, width, height;
      var tilePixelSize, imagesInWidth, imagesInHeight, canvasWidth, canvasHeight := PlanDimensions(width, height, tiles);
      amountWidth, amountHeight := imagesInWidth, imagesInHeight;
      newWidth, newHeight := canvasWidth, canvasHeight;
      tileSize := tilePixelSize;
      assert canvasHeight * canvasWidth * chs == canvasWidth * canvasHeight * chs >= 0;
      var collageAmountPixels := canvasHeight * canvasWidth;
      newImg := new byte[collageAmountPixels * chs];
      PlanFits(width, height, tiles);
      var table := NewScoreTable(imagesInHeight, imagesInWidth);
      scoreTable := table;
      history := [];
      new;
    }

    /** `copy_tile_to_image`: writes `tile` into the block of cell (row, col) and nothing else. */
    method CopyTileToImage(tile: seq<byte>, row: nat, col: nat)
      requires Shape() && Fits(tile) && row < amountHeight && col < amountWidth
      modifies newImg
      ensures forall i :: 0 <= i < newImg.Length ==>
        newImg[i] == if InCell(i, row, col) then TileSample(tile, i) else old(newImg[i])
      ensures forall l :: InImage(tileSize, tileSize, channels, l) ==>
        Index(newWidth, channels, Block(tileSize, row, col, l)) < newImg.Length
        && newImg[Index(newWidth, channels, Block(tileSize, row, col, l))] == Sample(tile, tileSize, tileSize, channels, l)
    {
      AllCanvasOffsets();
      var rowindex := 0;
      while rowindex < tileSize
        invariant rowindex <= tileSize
        invariant forall i :: 0 <= i < newImg.Length ==>
          newImg[i] == if InCell(i, row, col) && LocalAt(i).y < rowindex then TileSample(tile, i) else old(newImg[i])
      {
        CopyTileRow(tile, row, col, rowindex);
        rowindex := rowindex + 1;
      }
      forall l | InImage(tileSize, tileSize, channels, l)
        ensures Index(newWidth, channels, Block(tileSize, row, col, l)) < newImg.Length
        ensures newImg[Index(newWidth, channels, Block(tileSize, row, col, l))] == Sample(tile, tileSize, tileSize, channels, l)
      {
        BlockOffset(row, col, l);
      }
    }

    /** The `colindex` loop of `copy_tile_to_image`: row `rowindex` of the tile, and nothing else. */
    method CopyTileRow(tile: seq<byte>, row: nat, col: nat, rowindex: nat)
      requires Shape() && Fits(tile) && row < amountHeight && col < amountWidth && rowindex < tileSize
      modifies newImg
      ensures forall i :: 0 <= i < newImg.Length ==>
        newImg[i] == if InCell(i, row, col) && LocalAt(i).y == rowindex then TileSample(tile, i) else old(newImg[i])
    {
      AllCanvasOffsets();
      var colindex := 0;
      while colindex < tileSize
        invariant colindex <= tileSize
        invariant forall i :: 0 <= i < newImg.Length ==>
          newImg[i] == if InCell(i, row, col) && LocalAt(i).y == rowindex && LocalAt(i).x < colindex
                       then TileSample(tile, i) else old(newImg[i])
      {
        CopyTilePixel(tile, row, col, rowindex, colindex);
        colindex := colindex + 1;
      }
    }

    /** The `channel` loop of `copy_tile_to_image`: the samples of tile pixel (rowindex, colindex), and nothing else. */
    method CopyTilePixel(tile: seq<byte>, row: nat, col: nat, rowindex: nat, colindex: nat)
      requires Shape() && Fits(tile) && row < amountHeight && col < amountWidth
      requires rowindex < tileSize && colindex < tileSize
      modifies newImg
      ensures forall i :: 0 <= i < newImg.Length ==>
        newImg[i] == if InCell(i, row, col) && LocalAt(i).y == rowindex && LocalAt(i).x == colindex
                     then TileSample(tile, i) else old(newImg[i])
    {
      AllCanvasOffsets();
      var channel := 0;
      while channel < channels
        invariant channel <= channels
        invariant forall i :: 0 <= i < newImg.Length ==>
          newImg[i] == if InCell(i, row, col) && LocalAt(i) == Pos(rowindex, colindex, LocalAt(i).k) && LocalAt(i).k < channel
                       then TileSample(tile, i) else old(newImg[i])
      {
        var index := (row * tileSize) * newWidth * channels + (col * tileSize) * channels
                     + rowindex * newWidth * channels + colindex * channels;
        BlockOffset(row, col, Pos(rowindex, colindex, channel));
        IndexInBounds(tileSize, tileSize, channels, Pos(rowindex, colindex, channel));
        newImg[index + channel] := tile[rowindex * tileSize * channels + colindex * channels + channel];
        channel := channel + 1;
      }
    }

    /** The body of the placement loop for one cell (main.c lines 134-141). */
    method ConsiderTile(tile: seq<byte>, row: nat, col: nat)
      requires Shape() && channels >= 3 && Fits(tile) && row < amountHeight && col < amountWidth
      modifies scoreTable, newImg
      ensures AnchorFits(row, col)
      ensures forall r, c :: 0 <= r < amountHeight && 0 <= c < amountWidth ==>
        scoreTable[r, c] == if r == row && c == col
                            then Update(old(scoreTable[row, col]), TileScore(originalImg, originalWidth, channels, tile, tileSize, row, col))
                            else old(scoreTable[r, c])
      ensures forall i :: 0 <= i < newImg.Length ==>
        newImg[i] == if InCell(i, row, col) && Replaces(old(scoreTable[row, col]), TileScore(originalImg, originalWidth, channels, tile, tileSize, row, col))
                     then TileSample(tile, i) else old(newImg[i])
    {
      AnchorInBounds(originalWidth, originalHeight, channels, tileSize, amountWidth, amountHeight, row, col);
      var score := ScoreTileEuclidean(originalImg, originalWidth, channels, tile, col, row, tileSize);
      if scoreTable[row, col] == -1 || scoreTable[row, col] > score {
        CopyTileToImage(tile, row, col);
        scoreTable[row, col] := score;
      }
    }

    /** Cell (r, c) comes before cell (row, col) in the order the placement loop visits cells. */
    static predicate Done(r: nat, c: nat, row: nat, col: nat)
    {
      r < row || (r == row && c < col)
    }

    /** The cell of canvas offset `i` has been visited before cell (row, col). */
    ghost predicate DoneAt(i: nat, row: nat, col: nat)
    {
      var p := PosOf(newWidth, channels, i);
      Done(CellRow(tileSize, p), CellCol(tileSize, p), row, col)
    }

    lemma CellScoresSnoc(h: seq<seq<byte>>, tile: seq<byte>, row: nat, col: nat)
      requires channels >= 3 && AnchorFits(row, col) && AllFit(h) && Fits(tile) && AllFit(h + [tile])
      ensures CellScores(h + [tile], row, col)
              == CellScores(h, row, col) + [TileScore(originalImg, originalWidth, channels, tile, tileSize, row, col)]
    {
      assert (h + [tile])[..|h|] == h;
    }

    /**
      What canvas offset `i` shows after one more tile: the new tile when it
      replaces the cell's occupant, otherwise what it showed before.
     */
    lemma ShownAfter(h: seq<seq<byte>>, tile: seq<byte>, i: nat, row: nat, col: nat)
      requires Shape() && channels >= 3 && AnchorsFit() && AllFit(h) && Fits(tile) && AllFit(h + [tile])
      requires i < newImg.Length && row < amountHeight && col < amountWidth && InCell(i, row, col)
      ensures Replaces(BestScore(CellScores(h, row, col)), TileScore(originalImg, originalWidth, channels, tile, tileSize, row, col))
              ==> Shown(h + [tile], i) == TileSample(tile, i)
      ensures !Replaces(BestScore(CellScores(h, row, col)), TileScore(originalImg, originalWidth, channels, tile, tileSize, row, col))
              ==> |h| > 0 && Shown(h + [tile], i) == Shown(h, i)
    {
      CellScoresSnoc(h, tile, row, col);
      Appended(CellScores(h, row, col), TileScore(originalImg, originalWidth, channels, tile, tileSize, row, col));
    }

    /**
      What the collage invariant means for one cell once tiles have been
      placed: the cell is filled, its score is the lowest any placed tile
      scores there, and it belongs to the earliest tile with that score.
     */
    lemma CellHoldsBest(r: nat, c: nat)
      requires Valid() && |history| > 0 && r < amountHeight && c < amountWidth
      ensures scoreTable[r, c] != Unfilled
      ensures forall k :: 0 <= k < |history| ==>
        scoreTable[r, c] <= TileScore(originalImg, originalWidth, channels, history[k], tileSize, r, c)
      ensures var w := Winner(CellScores(history, r, c));
        && scoreTable[r, c] == TileScore(originalImg, originalWidth, channels, history[w], tileSize, r, c)
        && forall k :: 0 <= k < w ==> TileScore(originalImg, originalWidth, channels, history[k], tileSize, r, c) > scoreTable[r, c]
    {
      var ss := CellScores(history, r, c);
      BestScoreIsMinimum(ss);
      WinnerIsEarliest(ss);
    }

    /** The block of cell (r, c) holds, pixel for pixel, the tile with the cell's recorded score. */
    lemma CellShowsWinner(r: nat, c: nat, l: Pos)
      requires Valid() && |history| > 0 && r < amountHeight && c < amountWidth
      requires InImage(tileSize, tileSize, channels, l)
      ensures Index(newWidth, channels, Block(tileSize, r, c, l)) < newImg.Length
      ensures newImg[Index(newWidth, channels, Block(tileSize, r, c, l))]
              == Sample(history[Winner(CellScores(history, r, c))], tileSize, tileSize, channels, l)
    {
      BlockOffset(r, c, l);
    }

    /** The score table records `h'` for the cells visited before (row, col) and `h` for the rest. */
    ghost predicate TableSeen(h: seq<seq<byte>>, h': seq<seq<byte>>, row: nat, col: nat)
      requires Shape() && AllFit(h) && AllFit(h')
      requires |h| > 0 || |h'| > 0 ==> channels >= 3 && AnchorsFit()
      reads scoreTable
    {
      forall r, c :: 0 <= r < amountHeight && 0 <= c < amountWidth ==>
        scoreTable[r, c] == BestScore(CellScores(if Done(r, c, row, col) then h' else h, r, c))
    }

    /** The canvas shows the winners of `h'` in the cells visited before (row, col) and `before` elsewhere. */
    ghost predicate CanvasSeen(h': seq<seq<byte>>, before: seq<byte>, row: nat, col: nat)
      requires Shape() && channels >= 3 && AnchorsFit() && |h'| > 0 && AllFit(h') && |before| == newImg.Length
      reads newImg
    {
      forall i :: 0 <= i < newImg.Length ==>
        newImg[i] == if DoneAt(i, row, col) then Shown(h', i) else before[i]
    }

    /** The inner loop of the placement loop (main.c lines 131-142): the cells of one row consider `tile`. */
    method PlaceInRow(tile: seq<byte>, row: nat, ghost h: seq<seq<byte>>, ghost before: seq<byte>)
      requires Shape() && channels >= 3 && AnchorsFit() && AllFit(h) && Fits(tile) && AllFit(h + [tile])
      requires row < amountHeight && |before| == newImg.Length
      requires |h| > 0 ==> forall i :: 0 <= i < |before| ==> before[i] == Shown(h, i)
      requires TableSeen(h, h + [tile], row, 0) && CanvasSeen(h + [tile], before, row, 0)
      modifies scoreTable, newImg
      ensures TableSeen(h, h + [tile], row + 1, 0) && CanvasSeen(h + [tile], before, row + 1, 0)
    {
      var col := 0;
      while col < amountWidth
        invariant col <= amountWidth
        invariant TableSeen(h, h + [tile], row, col) && CanvasSeen(h + [tile], before, row, col)
      {
        VisitCell(tile, row, col, h, before);
        col := col + 1;
      }
      AllCanvasOffsets();
    }

    /** One cell considers `tile`; afterwards that cell, too, records the outcome with `tile`. */
    method VisitCell(tile: seq<byte>, row: nat, col: nat, ghost h: seq<seq<byte>>, ghost before: seq<byte>)
      requires Shape() && channels >= 3 && AnchorsFit() && AllFit(h) && Fits(tile) && AllFit(h + [tile])
      requires row < amountHeight && col < amountWidth && |before| == newImg.Length
      requires |h| > 0 ==> forall i :: 0 <= i < |before| ==> before[i] == Shown(h, i)
      requires TableSeen(h, h + [tile], row, col) && CanvasSeen(h + [tile], before, row, col)
      modifies scoreTable, newImg
      ensures TableSeen(h, h + [tile], row, col + 1) && CanvasSeen(h + [tile], before, row, col + 1)
    {
      ghost var h' := h + [tile];
      ConsiderTile(tile, row, col);
      CellScoresSnoc(h, tile, row, col);
      Appended(CellScores(h, row, col), TileScore(originalImg, originalWidth, channels, tile, tileSize, row, col));
      forall r, c | 0 <= r < amountHeight && 0 <= c < amountWidth
        ensures scoreTable[r, c] == BestScore(CellScores(if Done(r, c, row, col + 1) then h' else h, r, c))
      {
        if r != row || c != col {
          assert Done(r, c, row, col + 1) == Done(r, c, row, col);
        }
      }
      forall i | 0 <= i < newImg.Length
        ensures newImg[i] == if DoneAt(i, row, col + 1) then Shown(h', i) else before[i]
      {
        if InCell(i, row, col) {
          ShownAfter(h, tile, i, row, col);
        }
      }
    }

    /** Before the placement loop: no cell has been visited, so the table and the canvas record the old history. */
    lemma StartPlacing(tile: seq<byte>)
      requires Valid() && channels >= 3 && Fits(tile)
      ensures AnchorsFit() && AllFit(history + [tile])
      ensures |history| > 0 ==> forall i :: 0 <= i < newImg.Length ==> newImg[i] == Shown(history, i)
      ensures TableSeen(history, history + [tile], 0, 0) && CanvasSeen(history + [tile], newImg[..], 0, 0)
    {
      AllAnchorsFit();
      assert AllFit(history + [tile]) by {
        assert forall k :: 0 <= k < |history| ==> (history + [tile])[k] == history[k];
      }
    }

    /** After the placement loop every cell has been visited, so the collage records its history: it is Valid. */
    lemma FinishPlacing(h: seq<seq<byte>>, before: seq<byte>)
      requires Shape() && channels >= 3 && AnchorsFit() && AllFit(h) && |history| > 0 && AllFit(history)
      requires |before| == newImg.Length
      requires TableSeen(h, history, amountHeight, 0) && CanvasSeen(history, before, amountHeight, 0)
      ensures Valid()
    {
      AllCanvasOffsets();
    }

    /**
      The placement loop for one candidate tile (main.c lines 129-143): every
      cell considers the tile, row by row, and the collage afterwards records
      the greedy outcome of all tiles placed so far, this one included.
     */
    method PlaceTile(tile: seq<byte>)
      requires Valid() && channels >= 3 && Fits(tile)
      modifies this, scoreTable, newImg
      ensures Valid() && history == old(history) + [tile]
    {
      ghost var h := history;
      ghost var h' := h + [tile];
      ghost var before := newImg[..];
      StartPlacing(tile);
      var row := 0;
      while row < amountHeight
        invariant row <= amountHeight
        invariant TableSeen(h, h', row, 0) && CanvasSeen(h', before, row, 0)
      {
        PlaceInRow(tile, row, h, before);
        row := row + 1;
      }
      history := h';
      FinishPlacing(h, before);
    }
  }

  /**
    `main` from loading the source to writing the collage (main.c lines
    71-145): the collage is built for the source, and then every candidate
    tile, already cropped and resized, goes through the placement loop in
    the order the files are numbered.
   */
  method MakeCollage(original: seq<byte>, width: nat, height: nat, chs: nat, tiles: nat,
                     candidates: seq<seq<byte>>) returns (clg: Collage)
    requires |original| == width * height * chs
    requires tiles >= 1 && TileEdge(width, height, tiles) >= 1
    requires |candidates| > 0 ==> chs >= 3
    requires forall k :: 0 <= k < |candidates| ==>
      |candidates[k]| == TileEdge(width, height, tiles) * TileEdge(width, height, tiles) * chs
    ensures fresh(clg) && clg.Valid() && clg.history == candidates
    ensures clg.originalImg == original && clg.channels == chs
    ensures clg.originalWidth == width && clg.originalHeight == height
    ensures var g := Plan(width, height, tiles);
      clg.tileSize == g.tile && clg.amountWidth == g.cols && clg.amountHeight == g.rows
  {
    clg := new Collage(original, width, height, chs, tiles);
    var fileCount := 0;
    while fileCount < |candidates|
      invariant fileCount <= |candidates|
      invariant clg.Valid() && clg.history == candidates[..fileCount]
      invariant fresh(clg.newImg) && fresh(clg.scoreTable)
    {
      clg.PlaceTile(candidates[fileCount]);
      fileCount := fileCount + 1;
    }
    assert candidates[..fileCount] == candidates;
  }

  /**
    The arithmetic of main.c lines 78-98: the tile edge, the number of tiles
    across and down, and the canvas size, which is the grid of Plan.
   */
  method PlanDimensions(width: nat, height: nat, tiles: nat)
    returns (tilePixelSize: nat, imagesInWidth: nat, imagesInHeight: nat, canvasWidth: nat, canvasHeight: nat)
    requires tiles >= 1 && TileEdge(width, height, tiles) >= 1
    ensures tilePixelSize * tilePixelSize <= width * height / tiles < (tilePixelSize + 1) * (tilePixelSize + 1)
    ensures imagesInWidth * tilePixelSize <= width < imagesInWidth * tilePixelSize + tilePixelSize
    ensures imagesInHeight * tilePixelSize <= height < imagesInHeight * tilePixelSize + tilePixelSize
    ensures canvasWidth == imagesInWidth * tilePixelSize && canvasHeight == imagesInHeight * tilePixelSize
    ensures Grid(tilePixelSize, imagesInWidth, imagesInHeight) == Plan(width, height, tiles)
  {
    var totalPixels := height * width;
    assert totalPixels == width * height;
    tilePixelSize := Isqrt(totalPixels / tiles);
    IsqrtBounds(totalPixels / tiles);
    PlanFits(width, height, tiles);
    assert width / tilePixelSize >= 0 && height / tilePixelSize >= 0;
    imagesInWidth := width / tilePixelSize;
    imagesInHeight := height / tilePixelSize;
    assert imagesInWidth * tilePixelSize >= 0 && imagesInHeight * tilePixelSize >= 0;
    canvasWidth := imagesInWidth * tilePixelSize;
    canvasHeight := imagesInHeight * tilePixelSize;
  }

  /** The score table of lines 105-115: `rows` x `cols` entries, each set to Unfilled. */
  method NewScoreTable(rows: nat, cols: nat) returns (table: array2<int>)
    ensures fresh(table)
    ensures table.Length0 == rows && table.Length1 == cols
    ensures forall r, c :: 0 <= r < rows && 0 <= c < cols ==> table[r, c] == Unfilled
  {
    table := new int[rows, cols];
    var i := 0;
    while i < rows
      invariant i <= rows
      invariant forall r, c :: 0 <= r < i && 0 <= c < cols ==> table[r, c] == Unfilled
    {
      var j := 0;
      while j < cols
        invariant j <= cols
        invariant forall r, c :: 0 <= r < i && 0 <= c < cols ==> table[r, c] == Unfilled
        invariant forall c :: 0 <= c < j ==> table[i, c] == Unfilled
      {
        table[i, j] := -1;
        j := j + 1;
      }
      i := i + 1;
    }
  }
}
