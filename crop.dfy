/**
  The square crop in `resized_image_from_filename` (main.c lines 195-208):
  before a candidate image is handed to the resizer, its top-left
  `min_size` x `min_size` square is copied into a buffer of its own, so that
  resizing does not distort the aspect ratio.
 */
module Crop {
  import opened Layout

  /** `minimum` (main.c lines 173-179). */
  function Minimum(a: int, b: int): (m: int)
    ensures m <= a && m <= b
    ensures m == a || m == b
  {
    if a <= b then a else b
  }

  /**
    Copies the top-left square of a `width` x `height` image with `chs`
    channels, row by row, pixel by pixel, channel by channel.
   */
  method CropTopLeftSquare(image: seq<byte>, width: nat, height: nat, chs: nat) returns (square: array<byte>)
    requires |image| == width * height * chs
    ensures fresh(square)
    ensures square.Length == Minimum(width, height) * Minimum(width, height) * chs
    ensures forall i :: 0 <= i < square.Length ==> square[i] == Cropped(image, width, height, chs, i)
    ensures forall p :: InImage(Minimum(width, height), Minimum(width, height), chs, p) ==>
      Index(Minimum(width, height), chs, p) < square.Length
      && square[Index(Minimum(width, height), chs, p)] == Sample(image, width, height, chs, p)
  {
    var m := Minimum(width, height);
    square := new byte[m * m * chs];
    EveryOffsetDecodes(m, chs, square.Length);
    var r := 0;
    while r < m
      invariant r <= m
      invariant forall i :: 0 <= i < square.Length && Before(PosOf(m, chs, i), Pos(r, 0, 0)) ==>
                  square[i] == Cropped(image, width, height, chs, i)
    {
      CopyRow(square, image, width, height, chs, r);
      r := r + 1;
    }
    forall p | InImage(m, m, chs, p)
      ensures Index(m, chs, p) < square.Length && square[Index(m, chs, p)] == Sample(image, width, height, chs, p)
    {
      IndexInBounds(m, m, chs, p);
      PosOfIndex(m, chs, p);
    }
  }

  /** The middle loop: copies row `r` of the square, pixel by pixel, and writes nothing else. */
  method CopyRow(square: array<byte>, image: seq<byte>, width: nat, height: nat, chs: nat, r: nat)
    requires |image| == width * height * chs
    requires square.Length == Minimum(width, height) * Minimum(width, height) * chs
    requires r < Minimum(width, height)
    modifies square
    ensures forall i :: 0 <= i < square.Length ==>
      square[i] == if PosOf(Minimum(width, height), chs, i).y == r
                   then Cropped(image, width, height, chs, i) else old(square[i])
  {
    var m := Minimum(width, height);
    EveryOffsetDecodes(m, chs, square.Length);
    var c := 0;
    while c < m
      invariant c <= m
      invariant forall i :: 0 <= i < square.Length ==>
        square[i] == if PosOf(m, chs, i).y == r && PosOf(m, chs, i).x < c
                     then Cropped(image, width, height, chs, i) else old(square[i])
    {
      CopyPixel(square, image, width, height, chs, r, c);
      c := c + 1;
    }
  }

  /** The innermost loop: copies the `chs` samples of pixel (r, c) into the crop and writes nothing else. */
  method CopyPixel(square: array<byte>, image: seq<byte>, width: nat, height: nat, chs: nat, r: nat, c: nat)
    requires |image| == width * height * chs
    requires square.Length == Minimum(width, height) * Minimum(width, height) * chs
    requires r < Minimum(width, height) && c < Minimum(width, height)
    modifies square
    ensures forall i :: 0 <= i < square.Length ==>
      square[i] == if PosOf(Minimum(width, height), chs, i).y == r && PosOf(Minimum(width, height), chs, i).x == c
                   then Cropped(image, width, height, chs, i) else old(square[i])
  {
    var m := Minimum(width, height);
    EveryOffsetDecodes(m, chs, square.Length);
    var ch := 0;
    while ch < chs
      invariant ch <= chs
      invariant forall i :: 0 <= i < square.Length ==>
        square[i] == if PosOf(m, chs, i).y == r && PosOf(m, chs, i).x == c && PosOf(m, chs, i).k < ch
                     then Cropped(image, width, height, chs, i) else old(square[i])
    {
      ghost var p := Pos(r, c, ch);
      IndexInBounds(m, m, chs, p);
      IndexInBounds(width, height, chs, p);
      PosOfIndex(m, chs, p);
      square[r * m * chs + c * chs + ch] := image[r * width * chs + c * chs + ch];
      ch := ch + 1;
    }
  }

  /**
    The sample at offset `i` of the crop: the source sample at the position
    that offset stands for in a square buffer `Minimum(width, height)` wide.
   */
  function Cropped(image: seq<byte>, width: nat, height: nat, chs: nat, i: nat): byte
    requires |image| == width * height * chs
    requires i < Minimum(width, height) * Minimum(width, height) * chs
  {
    var m := Minimum(width, height);
    PosOfInImage(m, m, chs, i);
    Sample(image, width, height, chs, PosOf(m, chs, i))
  }

  /** Every offset of an `m`-wide buffer is the Index of its decoded position, which lies in the image. */
  lemma EveryOffsetDecodes(m: nat, chs: nat, len: nat)
    requires len == m * m * chs
    ensures forall i :: 0 <= i < len ==>
      InImage(m, m, chs, PosOf(m, chs, i)) && Index(m, chs, PosOf(m, chs, i)) == i
  {
    forall i | 0 <= i < len
      ensures InImage(m, m, chs, PosOf(m, chs, i)) && Index(m, chs, PosOf(m, chs, i)) == i
    {
      PosOfInImage(m, m, chs, i);
      IndexPosOf(m, chs, i);
    }
  }
}
