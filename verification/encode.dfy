/** The raster encoder: the fill loop of `encodeText` (dist/encode.js and
    src/encode.ts), which walks the grid column by column and writes each
    character's value, then the null sentinel, into R, G and B. */
module Encoder {
  import opened Types
  import opened Utilities
  import opened Grid

  function Min(a: nat, b: nat): nat
  {
    if a <= b then a else b
  }

  /** The byte written into R, G and B of the `i`-th visited cell: the
      mapped character while text remains, the sentinel 0 afterwards. */
  function CellValue(text: Text, limit: int, i: nat): (v: Byte)
    requires limit != 0
    ensures v != 0 <==> i < |text|
  {
    if i < |text| then Clamp(CharToInt(text[i], limit)) else 0
  }

  /** The buffer once the first `n` cells of the walk are written: those
      cells hold their value and an opaque alpha, all other bytes are still
      the zero the canvas starts with. */
  function Snapshot(text: Text, limit: int, width: nat, height: nat, n: nat): (data: seq<Byte>)
    requires limit != 0
    ensures |data| == 4 * (width * height)
  {
    if width == 0 then []
    else
      seq(4 * (width * height), k requires 0 <= k < 4 * (width * height) =>
        var visit := VisitOf(width, height, k / 4);
        if visit >= n then 0
        else if k % 4 == 3 then 255
        else CellValue(text, limit, visit))
  }

  /** What the buffer holds at one cell once every cell is visited: R, G and
      B carry the value of its visit index and alpha is opaque. */
  lemma FilledCell(text: Text, limit: int, width: nat, height: nat, x: nat, y: nat)
    requires limit != 0 && x < width && y < height
    ensures PixelIndex(width, x, y) + 3 < 4 * (width * height)
    ensures var data := Snapshot(text, limit, width, height, width * height);
            var p := PixelIndex(width, x, y);
            var v := CellValue(text, limit, x * height + y);
            data[p] == v && data[p + 1] == v && data[p + 2] == v && data[p + 3] == 255
  {
    var p := PixelIndex(width, x, y);
    CellPosition(width, height, x, y);
    assert (p + 1) / 4 == (p + 2) / 4 == (p + 3) / 4 == p / 4 == y * width + x;
  }

  /** `FilledCell` for every cell of the grid, read through `Channel`. */
  lemma FilledCells(text: Text, limit: int, width: nat, height: nat)
    requires limit != 0
    ensures forall x, y :: 0 <= x < width && 0 <= y < height ==>
      var image := ImageData(width, height, Snapshot(text, limit, width, height, width * height));
      Channel(image, x, y, 0) == CellValue(text, limit, x * height + y) &&
      Channel(image, x, y, 1) == CellValue(text, limit, x * height + y) &&
      Channel(image, x, y, 2) == CellValue(text, limit, x * height + y) &&
      Channel(image, x, y, 3) == 255
  {
    var image := ImageData(width, height, Snapshot(text, limit, width, height, width * height));
    forall x, y | 0 <= x < width && 0 <= y < height
      ensures Channel(image, x, y, 0) == CellValue(text, limit, x * height + y)
      ensures Channel(image, x, y, 1) == CellValue(text, limit, x * height + y)
      ensures Channel(image, x, y, 2) == CellValue(text, limit, x * height + y)
      ensures Channel(image, x, y, 3) == 255
    {
      FilledCell(text, limit, width, height, x, y);
    }
  }

  /** The image the fill loop produces on a `width` by `height` canvas: the
      cell at column `x`, row `y` holds the value of its visit index
      `x * height + y` in R, G and B, and every alpha byte is opaque. */
  function Raster(text: Text, limit: int, width: nat, height: nat): (image: ImageData)
    requires limit != 0
    ensures image.Valid() && image.width == width && image.height == height
    ensures forall x, y :: 0 <= x < width && 0 <= y < height ==>
      Channel(image, x, y, 0) == CellValue(text, limit, x * height + y) &&
      Channel(image, x, y, 1) == CellValue(text, limit, x * height + y) &&
      Channel(image, x, y, 2) == CellValue(text, limit, x * height + y) &&
      Channel(image, x, y, 3) == 255
  {
    FilledCells(text, limit, width, height);
    ImageData(width, height, Snapshot(text, limit, width, height, width * height))
  }

  /** `encodeText` of dist/encode.js as a function: the factor-pair size,
      then the fill. The canvas has exactly the padded pixel count, is at
      least as wide as it is high, and so always has a cell to spare. */
  function Encoded(text: Text, limit: int): (image: ImageData)
    requires limit != 0
    ensures image.Valid()
    ensures image.width * image.height == TrueLength(|text|)
    ensures 1 <= image.height <= image.width
    ensures |text| < image.width * image.height
  {
    var size := GetImageSize(|text|);
    Raster(text, limit, size.0, size.1)
  }

  /** A fresh canvas buffer is all zero, which is the walk before its first cell. */
  lemma SnapshotStart(text: Text, limit: int, width: nat, height: nat)
    requires limit != 0
    ensures Snapshot(text, limit, width, height, 0) == seq(4 * (width * height), _ => 0)
  {
  }

  /** Visiting cell `(x, y)` as the `n`-th changes only its own four bytes. */
  lemma SnapshotStep(text: Text, limit: int, width: nat, height: nat, x: nat, y: nat, k: nat)
    requires limit != 0 && x < width && y < height && k < 4 * (width * height)
    ensures var n := x * height + y;
            var p := PixelIndex(width, x, y);
            Snapshot(text, limit, width, height, n + 1)[k] ==
              if p <= k < p + 4 then (if k - p == 3 then 255 else CellValue(text, limit, n))
              else Snapshot(text, limit, width, height, n)[k]
  {
    var n := x * height + y;
    var p := PixelIndex(width, x, y);
    CellPosition(width, height, x, y);
    if p <= k < p + 4 {
      assert k / 4 == y * width + x && k % 4 == k - p;
    } else {
      assert k / 4 != y * width + x;
      if VisitOf(width, height, k / 4) == n {
        VisitInjective(width, height, k / 4, x, y);
      }
    }
  }

  /** The buffer `before` with the pixel at offset `p` set to `v, v, v, 255`. */
  function StorePixel(before: seq<Byte>, p: nat, v: Byte): (after: seq<Byte>)
    ensures |after| == |before|
  {
    seq(|before|, k requires 0 <= k < |before| =>
      if p <= k < p + 4 then (if k - p == 3 then 255 else v) else before[k])
  }

  /** The four stores of one loop iteration write exactly one pixel. */
  lemma StoreFour(before: seq<Byte>, p: nat, v: Byte)
    requires p + 3 < |before|
    ensures before[p := v][p + 1 := v][p + 2 := v][p + 3 := 255] == StorePixel(before, p, v)
  {
  }

  /** Visiting cell `(x, y)` writes its pixel into the snapshot; `n` is its
      visit index and `p` the offset of its pixel. */
  lemma SnapshotDiff(text: Text, limit: int, width: nat, height: nat, x: nat, y: nat, n: nat, p: nat)
    requires limit != 0 && x < width && y < height
    requires n == x * height + y && p == PixelIndex(width, x, y)
    ensures Snapshot(text, limit, width, height, n + 1) ==
      StorePixel(Snapshot(text, limit, width, height, n), p, CellValue(text, limit, n))
  {
    var after := Snapshot(text, limit, width, height, n + 1);
    var stored := StorePixel(Snapshot(text, limit, width, height, n), p, CellValue(text, limit, n));
    forall k | 0 <= k < |after|
      ensures after[k] == stored[k]
    {
      SnapshotStep(text, limit, width, height, x, y, k);
    }
  }

  /** Writing the `n`-th visited cell, at `(y * width + x) * 4`, turns the
      buffer after `n` cells into the buffer after `n + 1` cells. */
  lemma WriteCell(text: Text, limit: int, width: nat, height: nat, x: nat, y: nat)
    requires limit != 0 && x < width && y < height
    ensures var n := x * height + y;
            var p := PixelIndex(width, x, y);
            var v := CellValue(text, limit, n);
            p + 3 < 4 * (width * height) &&
            Snapshot(text, limit, width, height, n)[p := v][p + 1 := v][p + 2 := v][p + 3 := 255]
              == Snapshot(text, limit, width, height, n + 1)
  {
    var n := x * height + y;
    var p := PixelIndex(width, x, y);
    CellPosition(width, height, x, y);
    SnapshotDiff(text, limit, width, height, x, y, n, p);
    StoreFour(Snapshot(text, limit, width, height, n), p, CellValue(text, limit, n));
  }

  /** The fill loop of `encodeText`. The canvas is `width` by `height`,
      whichever planner chose it; `textIndex` counts the characters written. */
  method Fill(text: Text, limit: int, width: nat, height: nat) returns (image: ImageData, textIndex: nat)
    requires limit != 0
    ensures image == Raster(text, limit, width, height)
    ensures textIndex == Min(|text|, width * height)
  {
    var data: seq<Byte> := seq(4 * (width * height), _ => 0);
    SnapshotStart(text, limit, width, height);
    textIndex := 0;
    var x := 0;
    while x < width
      invariant x <= width
      invariant textIndex == Min(|text|, x * height)
      invariant data == Snapshot(text, limit, width, height, x * height)
    {
      var y := 0;
      while y < height
        invariant y <= height
        invariant textIndex == Min(|text|, x * height + y)
        invariant data == Snapshot(text, limit, width, height, x * height + y)
      {
        WriteCell(text, limit, width, height, x, y);
        ghost var n := x * height + y;
        var pixelIndex := (y * width + x) * 4;
        assert pixelIndex == PixelIndex(width, x, y);
        assert textIndex < |text| <==> n < |text|;
        if textIndex < |text| {
          var pixelValue := CharToInt(text[textIndex], limit);
          data := data[pixelIndex := Clamp(pixelValue)];
          data := data[pixelIndex + 1 := Clamp(pixelValue)];
          data := data[pixelIndex + 2 := Clamp(pixelValue)];
          data := data[pixelIndex + 3 := 255];
          textIndex := textIndex + 1;
        } else {
          data := data[pixelIndex := 0];
          data := data[pixelIndex + 1 := 0];
          data := data[pixelIndex + 2 := 0];
          data := data[pixelIndex + 3 := 255];
        }
        y := y + 1;
      }
      assert x * height + height == (x + 1) * height;
      x := x + 1;
    }
    image := ImageData(width, height, data);
  }

  /** `encodeText` of dist/encode.js: the canvas size comes from the
      factor-pair planner, so it holds the whole text and at least one
      terminator cell. */
  method EncodeText(text: Text, limit: int) returns (image: ImageData)
    requires limit != 0
    ensures image == Encoded(text, limit)
    ensures image.width * image.height == TrueLength(|text|)
    ensures 1 <= image.height <= image.width
    ensures |text| < image.width * image.height
  {
    var size := GetImageSize(|text|);
    var width, height := size.0, size.1;
    var textIndex;
    image, textIndex := Fill(text, limit, width, height);
  }

  /** A canvas with more cells than characters ends in a sentinel: the
      last visited cell, bottom of the last column, is 0. */
  lemma RasterEndsWithSentinel(text: Text, limit: int, width: nat, height: nat)
    requires limit != 0 && |text| < width * height
    ensures width >= 1 && height >= 1
    ensures Channel(Raster(text, limit, width, height), width - 1, height - 1, 0) == 0
  {
    VisitCell(width, height, |text|);
    assert (width - 1) * height + (height - 1) == width * height - 1;
  }

  /** The factor-pair canvas always ends in a sentinel, so the decoder
      meets at least one 0. */
  lemma EncodedEndsWithSentinel(text: Text, limit: int)
    requires limit != 0
    ensures Encoded(text, limit).width >= 1 && Encoded(text, limit).height >= 1
    ensures Channel(Encoded(text, limit), Encoded(text, limit).width - 1, Encoded(text, limit).height - 1, 0) == 0
  {
    var size := GetImageSize(|text|);
    RasterEndsWithSentinel(text, limit, size.0, size.1);
  }
}
