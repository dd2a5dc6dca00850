/** The raster decoder: the pixel scan of `decodeImage` (dist/decode.js),
    which walks the grid in the encoder's column-major order, reads the red
    channel and keeps every nonzero value as a character. */
module Decoder {
  import opened Types
  import opened Grid
  import opened Arith

  /** The red byte of the `i`-th visited cell. */
  function RedAt(image: ImageData, i: nat): Byte
    requires image.Valid() && i < image.width * image.height
  {
    VisitCell(image.width, image.height, i);
    Channel(image, i / image.height, i % image.height, 0)
  }

  /** The red bytes of all cells, in visiting order. */
  function Reds(image: ImageData): (reds: seq<Byte>)
    requires image.Valid()
    ensures |reds| == image.width * image.height
  {
    seq(image.width * image.height, i requires 0 <= i < image.width * image.height => RedAt(image, i))
  }

  /** The text read from the first `n` visited cells: one character per
      nonzero red byte, in visiting order. */
  function Scan(image: ImageData, n: nat): (text: Text)
    requires image.Valid() && n <= image.width * image.height
    ensures |text| <= n
    ensures forall k :: 0 <= k < |text| ==> 1 <= text[k] <= 255
  {
    if n == 0 then []
    else
      var value := RedAt(image, n - 1);
      Scan(image, n - 1) + (if value != 0 then [value] else [])
  }

  /** The text `decodeImage` resolves with, as a function of the pixels: the
      red channel in visiting order with every zero removed, so one character
      per nonzero cell and none for a zero cell, wherever the zeros lie. */
  function Decode(image: ImageData): (text: Text)
    requires image.Valid()
    ensures text == DropZeros(Reds(image))
    ensures |text| == image.width * image.height - multiset(Reds(image))[0]
  {
    ScanFilters(image, image.width * image.height);
    assert Reds(image)[..image.width * image.height] == Reds(image);
    Scan(image, image.width * image.height)
  }

  /** Reading cell `(x, y)`, at `(y * width + x) * 4`, extends the scan by
      its visit index `x * height + y`. */
  lemma ScanStep(image: ImageData, x: nat, y: nat)
    requires image.Valid() && x < image.width && y < image.height
    ensures x * image.height + y < image.width * image.height
    ensures PixelIndex(image.width, x, y) < |image.data|
    ensures var value := image.data[PixelIndex(image.width, x, y)];
            Scan(image, x * image.height + y + 1) ==
              Scan(image, x * image.height + y) + (if value != 0 then [value] else [])
  {
    CellPosition(image.width, image.height, x, y);
  }

  /** The pixel scan inside `img.onload`: `x` over the width, `y` over the
      height, the red byte at `(y * width + x) * 4`, zeros skipped. */
  method DecodePixels(image: ImageData) returns (decodedText: Text)
    requires image.Valid()
    ensures decodedText == Decode(image)
    ensures |decodedText| <= image.width * image.height
    ensures forall k :: 0 <= k < |decodedText| ==> decodedText[k] != 0
  {
    decodedText := [];
    var x := 0;
    while x < image.width
      invariant x <= image.width
      invariant x * image.height <= image.width * image.height
      invariant decodedText == Scan(image, x * image.height)
    {
      MulMonotone(x + 1, image.width, image.height);
      assert x * image.height + image.height == (x + 1) * image.height;
      var y := 0;
      while y < image.height
        invariant y <= image.height
        invariant x * image.height + y <= image.width * image.height
        invariant decodedText == Scan(image, x * image.height + y)
      {
        ScanStep(image, x, y);
        var pixelIndex := (y * image.width + x) * 4;
        var pixelValue := image.data[pixelIndex];
        if pixelValue != 0 {
          decodedText := decodedText + [pixelValue];
        }
        y := y + 1;
      }
      x := x + 1;
    }
    assert decodedText == Scan(image, image.width * image.height);
  }

  // ---------------------------------------------------------------------
  // The scan as a filter
  // ---------------------------------------------------------------------

  /** The nonzero bytes of `s`, in order. */
  function DropZeros(s: seq<Byte>): (t: seq<Byte>)
    ensures |t| == |s| - multiset(s)[0]
    ensures forall v :: v in t <==> v in s && v != 0
  {
    if s == [] then []
    else
      assert s == [s[0]] + s[1..];
      (if s[0] == 0 then [] else [s[0]]) + DropZeros(s[1..])
  }

  lemma {:induction false} DropZerosAppend(a: seq<Byte>, b: seq<Byte>)
    ensures DropZeros(a + b) == DropZeros(a) + DropZeros(b)
    decreases |a|
  {
    if a != [] {
      assert (a + b)[1..] == a[1..] + b;
      DropZerosAppend(a[1..], b);
    } else {
      assert a + b == b;
    }
  }

  /** A zero anywhere is skipped and the scan goes on past it. */
  lemma DropZerosSkipsZero(a: seq<Byte>, b: seq<Byte>)
    ensures DropZeros(a + [0] + b) == DropZeros(a) + DropZeros(b)
  {
    DropZerosAppend(a + [0], b);
    DropZerosAppend(a, [0]);
  }

  /** Bytes that are all nonzero pass through unchanged. */
  lemma {:induction false} DropZerosKeepsNonzero(s: seq<Byte>)
    requires forall k :: 0 <= k < |s| ==> s[k] != 0
    ensures DropZeros(s) == s
    decreases |s|
  {
    if s != [] {
      DropZerosKeepsNonzero(s[1..]);
    }
  }

  /** Bytes that are all zero leave nothing. */
  lemma {:induction false} DropZerosAllZero(s: seq<Byte>)
    requires forall k :: 0 <= k < |s| ==> s[k] == 0
    ensures DropZeros(s) == []
    decreases |s|
  {
    if s != [] {
      DropZerosAllZero(s[1..]);
    }
  }

  /** The scan of the first `n` cells is the filter of their red bytes. */
  lemma {:induction false} ScanFilters(image: ImageData, n: nat)
    requires image.Valid() && n <= image.width * image.height
    ensures Scan(image, n) == DropZeros(Reds(image)[..n])
    decreases n
  {
    if n > 0 {
      var reds := Reds(image);
      ScanFilters(image, n - 1);
      assert reds[..n] == reds[..n - 1] + [reds[n - 1]];
      DropZerosAppend(reds[..n - 1], [reds[n - 1]]);
      assert DropZeros([reds[n - 1]]) == (if reds[n - 1] == 0 then [] else [reds[n - 1]]);
    }
  }

  /** An image whose cells are all 0, or that has no cells, decodes to "". */
  lemma DecodeAllZero(image: ImageData)
    requires image.Valid()
    requires forall x, y :: 0 <= x < image.width && 0 <= y < image.height ==> Channel(image, x, y, 0) == 0
    ensures Decode(image) == []
  {
    var reds := Reds(image);
    forall i | 0 <= i < |reds|
      ensures reds[i] == 0
    {
      VisitCell(image.width, image.height, i);
      assert reds[i] == RedAt(image, i) == Channel(image, i / image.height, i % image.height, 0);
    }
    DropZerosAllZero(reds);
  }
}
