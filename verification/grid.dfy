/** Geometry shared by the encoder and the decoder: cells are visited
    column by column (`x` outer, `y` inner) but stored row by row, four
    bytes per pixel, at `(y * width + x) * 4`. */
module Grid {
  import opened Types
  import opened Arith

  /** Offset of the red byte of the pixel at column `x`, row `y`. */
  function PixelIndex(width: nat, x: nat, y: nat): nat
  {
    (y * width + x) * 4
  }

  /** Channel `c` (0 red, 1 green, 2 blue, 3 alpha) of the pixel at column
      `x`, row `y`: `data[(y * width + x) * 4 + c]`. */
  function Channel(image: ImageData, x: nat, y: nat, c: nat): Byte
    requires image.Valid() && x < image.width && y < image.height && c < 4
  {
    CellPosition(image.width, image.height, x, y);
    image.data[PixelIndex(image.width, x, y) + c]
  }

  /** Column-major visit index of the pixel at row-major position `p`: the
      number of cells the nested loops visit before it. */
  function VisitOf(width: nat, height: nat, p: nat): nat
    requires width >= 1
  {
    (p % width) * height + p / width
  }

  /** A cell inside the grid has its pixel inside the buffer, and its visit
      index `x * height + y` is inside the grid and leads back to it. */
  lemma CellPosition(width: nat, height: nat, x: nat, y: nat)
    requires x < width && y < height
    ensures y * width + x < width * height
    ensures (y * width + x) % width == x && (y * width + x) / width == y
    ensures x * height + y < width * height
    ensures (x * height + y) / height == x && (x * height + y) % height == y
    ensures VisitOf(width, height, y * width + x) == x * height + y
    ensures PixelIndex(width, x, y) + 3 < 4 * (width * height)
  {
    MulMonotone(y, height - 1, width);
    MulMonotone(x, width - 1, height);
    DivModUnique(y * width + x, width, y, x);
    DivModUnique(x * height + y, height, x, y);
  }

  /** Every visit index below `width * height` belongs to the cell in
      column `i / height`, row `i % height`. */
  lemma VisitCell(width: nat, height: nat, i: nat)
    requires i < width * height
    ensures width >= 1 && height >= 1
    ensures i / height < width && i % height < height
    ensures (i / height) * height + i % height == i
  {
    if i / height >= width {
      MulMonotone(width, i / height, height);
    }
  }

  /** Distinct row-major positions have distinct visit indices. */
  lemma VisitInjective(width: nat, height: nat, p: nat, x: nat, y: nat)
    requires width >= 1 && p < width * height && x < width && y < height
    requires VisitOf(width, height, p) == x * height + y
    ensures p == y * width + x
  {
    var x', y' := p % width, p / width;
    if y' >= height {
      MulMonotone(height, y', width);
    }
    MulMonotone(x', width - 1, height);
    DivModUnique(x' * height + y', height, x', y');
    DivModUnique(x * height + y, height, x, y);
  }

  /** Distinct cells own disjoint four-byte groups of the buffer. */
  lemma PixelsDisjoint(width: nat, height: nat, x: nat, y: nat, x': nat, y': nat)
    requires x < width && y < height && x' < width && y' < height
    requires x != x' || y != y'
    ensures PixelIndex(width, x, y) + 4 <= PixelIndex(width, x', y') ||
            PixelIndex(width, x', y') + 4 <= PixelIndex(width, x, y)
  {
    CellPosition(width, height, x, y);
    CellPosition(width, height, x', y');
  }
}
