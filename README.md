# Photomosaic tiling and placement engine

A Dafny model of the engine of `main.c` in the picture mosaic generator. The
generator takes a source image and a directory of numbered candidate
pictures, and rebuilds the source as a grid of square tiles.

- **Planning.** It derives a tile edge from the source size and the
  requested number of tiles, then drops the border that does not fill a
  whole tile.
- **Scoring and placement.** Each candidate, cropped to a square and
  resized to one tile, is scored against every cell of the grid. It
  replaces the cell's occupant when the cell is still unfilled or the new
  score is strictly lower.
- **Compositing.** Replacing an occupant copies the tile's pixels into
  the cell's block of the output canvas.

## Modules

- `Layout` covers the flat, row-major, channel-interleaved buffers:
  - the offset of a sample (`Index`) and its inverse (`PosOf`), with the
    round trip between them;
  - the split of a canvas position into a grid cell and a position inside
    the cell's block.
- `Geometry` is the dimension arithmetic of lines 78-98:
  - the integer square root;
  - the tile edge;
  - the grid of columns and rows and the canvas size.
- `Scoring` is `score_tile_euclidean`:
  - a specification function `TileScore`;
  - the loop methods the source runs to compute it;
  - properties of the score.
- `Placement` is the greedy replacement rule for one cell:
  - the recorded score after a sequence of candidates (`BestScore`);
  - the index of the candidate shown (`Winner`);
  - minimum, first-wins on ties, monotonicity.
- `Crop` holds `minimum` and the top-left square crop of
  `resized_image_from_filename`.
- `Mosaic` has two parts:
  - the class `Collage` (`struct collage` of `main.h`), with its
    constructor (lines 71-115), `copy_tile_to_image`, and the placement
    loop for one tile;
  - `MakeCollage`, which runs the file loop of `main` over the candidates.

### The collage invariant

A ghost field `history` lists the candidate tiles placed so far.
`Collage.Valid()` ties the mutable state to it:

- every score-table cell holds `BestScore` of the tiles' scores in that cell;
- once a tile has been placed, every canvas sample is the matching sample of
  the `Winner` tile of its cell.

`PlaceTile` keeps `Valid()` while appending the tile to `history`.
`CellHoldsBest` and `CellShowsWinner` spell out what `Valid()` means for one
cell: it is filled, it holds the minimum score, it belongs to the earliest
tile with that score, and its block shows that tile pixel for pixel.

### Behaviour of the code worth knowing

- **Only one source pixel is compared.** `score_tile_euclidean` compares
  every tile pixel with a single source pixel, the top-left corner of the
  cell (lines 237-238). That offset does not depend on the loop counters.
  The model keeps this literally (`ScoreReadsOnlyAnchor`).
- **The grid can be empty.** A tile edge of at least 1 does not guarantee
  at least one column and one row. A 1 x 100 source asked for one tile gets
  10-pixel tiles in a grid with no columns (`DegenerateGridExample`).
- **Uniform tiles can tie.** Against the anchor pixel (5, 5, 5), a uniform
  (10, 10, 10) tile and a uniform (0, 0, 0) tile both score 75. Because a
  candidate replaces only on a strictly lower score, the first of the two
  stays (`TieExample`, `TieExampleWinner`).

## Model

| member | source | states |
|---|---|---|
| `Geometry.IsqrtBounds` | main.c:79 | `Isqrt(n)` is the truncated square root: its square is at most `n` and the square of its successor exceeds `n` |
| `Geometry.IsqrtUnique` | main.c:79 | exactly one value lies in that bracket, so `Isqrt` is the only truncated root |
| `Geometry.TileEdgeIsLargest` | main.c:78-79 | every `t` with `t * t <= W * H div N` is at most the tile edge; the quotient is taken before the root |
| `Geometry.ZeroTileEdgeIff` | main.c:79-87 | the tile edge is zero, so lines 86-87 divide by zero, exactly when `W * H < N` |
| `Geometry.PlanFits` | main.c:86-97 | the canvas `C*T x R*T` fits inside the source and leaves less than one tile edge over in each dimension |
| `Geometry.NonEmptyGridIff` | main.c:86-87 | the grid has at least one column and one row exactly when the tile edge fits in both the width and the height |
| `Geometry.DegenerateGridExample` | main.c:78-97 | a 1 x 100 source asked for 1 tile gets tile edge 10 and a 0-column, 10-row grid |
| `Geometry.HundredSquareExample` | main.c:78-97 | a 100 x 100 source asked for 25 tiles gets 20-pixel tiles in a 5 x 5 grid that covers the source exactly |
| `Mosaic.PlanDimensions` | main.c:78-97 | the tile edge `T` is the truncated square root of `W * H div N` (`T*T <= W*H div N < (T+1)*(T+1)`); the columns `C` satisfy `C*T <= W < C*T + T` and the rows `R` satisfy `R*T <= H < R*T + T`, so they are `W div T` and `H div T`; the canvas is `C*T x R*T`; the result is the grid of `Plan` |
| `Mosaic.NewScoreTable` | main.c:105-115 | a fresh table with `R` rows and `C` columns whose every entry is the sentinel -1 |
| `Mosaic.Collage.constructor` | main.c:71-115 | the grid and canvas are those of `Plan`; the canvas holds exactly `new_width * new_height * channels` samples; every cell is unfilled; the collage is `Valid` with an empty history |
| `Scoring.ScoreTileEuclidean` | main.c:230-249 | the returned score is `TileScore`: over all `T*T` tile pixels, the sum of squared differences in channels 0-2 against the cell's anchor pixel; it is a natural number, so never the sentinel |
| `Scoring.AddTileRow` | main.c:236-244 | the inner loop adds exactly the distances of the `T` pixels of tile row `i` to the running score |
| `Scoring.PixelOffsets` | main.c:237-239 | decoded in the source image, `index_original` is channel 0 of pixel (`row*T`, `col*T`), the cell's top-left corner, whatever `i` and `j` are; decoded in the tile, `index_tile` is channel 0 of tile pixel (`i`, `j`), which is pixel `i*T + j` in row-major order |
| `Scoring.AnchorInBounds` | main.c:237-243 | for every cell of a grid that fits in the source, the three anchor samples lie inside the source buffer |
| `Scoring.PixelSumReadsOnlyAnchor` | main.c:237-243 | partial sums depend on the source only through the three anchor samples |
| `Scoring.ScoreReadsOnlyAnchor` | main.c:230-249 | two sources that agree on a cell's anchor samples give every tile the same score in that cell |
| `Scoring.UniformPixelSum` | main.c:230-249 | a tile of one colour scores its pixel count times that colour's distance to the anchor |
| `Scoring.TieExample` | main.c:230-249 | for anchor (5, 5, 5), both a (10, 10, 10) tile and a (0, 0, 0) tile score 75 |
| `Placement.Update` | main.c:136-141 | after a candidate is considered, the cell is filled; it holds the new score or the old one, and a filled cell's score does not rise |
| `Placement.BestScoreIsMinimum` | main.c:136-141 | after at least one candidate the cell is filled, and its score is the minimum of the candidates' scores and that of the shown candidate |
| `Placement.WinnerIsEarliest` | main.c:136 | every candidate before the shown one scored strictly worse, so ties keep the earlier tile |
| `Placement.Appended` | main.c:136-141 | one more candidate updates the score by the rule at line 136, and it is shown exactly when it replaces the occupant |
| `Placement.BestScoreNeverIncreases` | main.c:136-141 | once a cell is filled, further candidates never raise its score |
| `Placement.TieKeepsWinner` | main.c:136 | a candidate that is no better than the recorded score changes neither the score nor the tile shown |
| `Placement.TieExampleWinner` | main.c:136-141 | two candidates that both score 75 leave the score at 75 and show the first |
| `Mosaic.Collage.ConsiderTile` | main.c:134-141 | the cell's table entry becomes `Update(old, score)`, other entries are unchanged, and the cell's block receives the tile exactly when it replaces the occupant; nothing else in the canvas changes |
| `Mosaic.Collage.CopyTileToImage` | main.c:282-298 | each sample of the cell's block becomes the tile sample at the same position inside the tile; every write is in bounds; every other canvas sample is unchanged; the score table is not touched |
| `Mosaic.Collage.CopyTileRow` | main.c:286-296 | writes row `rowindex` of the tile into the block and nothing else |
| `Mosaic.Collage.CopyTilePixel` | main.c:288-295 | writes the channels of one tile pixel into the block and nothing else |
| `Mosaic.Collage.VisitCell` | main.c:132-142 | after one cell considers the tile, that cell and every earlier one record the history with the tile, and later ones the history without it |
| `Mosaic.Collage.PlaceInRow` | main.c:131-142 | after a row of cells considers the tile, every cell of that row and of earlier rows records the history with the tile |
| `Mosaic.Collage.PlaceTile` | main.c:129-143 | the placement loop for one tile keeps the collage invariant, with the tile appended to the history |
| `Mosaic.Collage.CellHoldsBest` | main.c:130-143 | once any tile is placed, each cell is filled, holds the lowest score of all tiles placed, and belongs to the earliest tile with that score |
| `Mosaic.Collage.CellShowsWinner` | main.c:130-143 | once any tile is placed, each cell's block holds, sample for sample, the tile that cell's recorded score belongs to |
| `Mosaic.MakeCollage` | main.c:121-145 | the collage built for the source and run over all candidates in file order is `Valid`, keeps the source image and its dimensions and channel count, has the tile edge and grid of `Plan`, and has all candidates as its history |
| `Crop.Minimum` | main.c:173-179 | the result is at most both arguments and equals one of them |
| `Crop.CropTopLeftSquare` | main.c:195-208 | a fresh `m x m x chs` buffer, with `m` the smaller of width and height, whose sample at (r, c, ch) is the source sample at (r, c, ch) |
| `Crop.CopyRow` | main.c:202-207 | copies row `r` of the square and nothing else |
| `Crop.CopyPixel` | main.c:204-206 | copies the channels of pixel (r, c) and nothing else |
| `Layout.IndexPosOf` | main.c:289-294 | decoding a canvas offset into row, column and channel and encoding it again gives back the offset |
| `Layout.PosOfIndex` | main.c:289-294 | encoding a position inside the image and decoding it again gives back the position |

## Left out

- Loading, resizing and writing images (`stbi_load`, `stbir_resize_uint8`,
  `stbi_write_jpg`, `stbi_image_free`) are calls into a library this model
  cannot see.
  - The source image and every candidate tile are given as inputs.
  - Each tile is assumed already resized to `T x T` pixels with the
    collage's channel count.
  - The code sizes the resized buffer with the tile file's own channel count
    (line 211); that mismatch is not modelled.
  - The parameter `collage_channels` is never used.
- Argument parsing (`getopt`, `atoi`, and `malloc`/`strcpy` copies
  of the arguments) and the usage text are
  command-line plumbing.
- The tile file names built with `sprintf` are string I/O and are not part of
  this model.
  - The name buffer has `strlen(dir) + n % 10 + 4` bytes for `n` files (line
    117). The longest name, for file `n`, needs `strlen(dir) + digits(n) + 5`
    bytes with its terminating NUL. So the buffer is large enough only when
    `n % 10` exceeds the number of decimal digits of `n`. It is too small,
    for example, for 1 file and for 10-12 files, and large enough for 2-9
    and for 13-19 files.
- `update_status_bar` (lines 306-325) prints progress, which this model
  leaves out. It is not harmless: with fewer than 20 files, `total / 20` at
  line 312 is 0, and line 313 divides by it on the very first call (line
  122).
- Mosaic.MakeCollage: the model has no progress bar, so it does not capture
  that the program divides by zero in `update_status_bar` before loading
  any tile when there are 1 to 19 candidate files. For those inputs the
  collage this member builds is one the program never finishes.
- `test_allocation` and the `free` calls are allocation plumbing. An
  allocation is assumed to succeed.
- Floating point. Scores are sums of squared byte differences, so they are
  modelled exactly as natural numbers instead of `double`s from `pow`.
  `(int) sqrt(...)` is the exact integer square root of the integer
  quotient.
- The 32-bit `int` products in the index and size arithmetic are unbounded
  integers here; overflow for huge images is not modelled.
- The canvas from `malloc` starts with unspecified contents; a Dafny array
  starts zeroed. `Valid()` says nothing about the canvas before the first
  tile is placed, so no property depends on the initial contents.
- Read-only buffers are sequences, not arrays: the source image, a resized
  tile and the image handed to the crop. The canvas, the score table and the
  crop buffer are arrays written in place.
- The nested loops of `score_tile_euclidean`, `copy_tile_to_image` and
  the crop are split into one method per loop level. Each method keeps the
  source's loop and index expressions.
- The tile edge is kept as a field of the collage instead of a local of
  `main` passed to every call.
- Mosaic.Collage.constructor: requires a tile edge of at least 1. With an edge
  of 0 the source divides by zero at lines 86-87, and `Geometry.ZeroTileEdgeIff`
  says when that happens.
- Scoring.ScoreTileEuclidean: requires at least three channels. The source
  always reads channels 0-2, and with fewer channels the reads past a tile's
  last pixel leave its buffer, which is undefined behaviour.
- Mosaic.MakeCollage: requires at least three channels when there is any
  candidate, for the same reason.
