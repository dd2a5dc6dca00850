/** What decoding an encoded image gives back: the text itself when every
    code unit fits the channel, its narrowed image otherwise. */
module RoundTrip {
  import opened Types
  import opened Utilities
  import opened Grid
  import opened Encoder
  import opened Decoder

  /** The bytes a text becomes once each code unit has gone through
      `convertCharToInt` and the byte store. None of them is the sentinel. */
  function Narrow(text: Text, limit: int): (bytes: seq<Byte>)
    requires limit != 0
    ensures |bytes| == |text|
    ensures forall k :: 0 <= k < |bytes| ==> bytes[k] != 0
  {
    seq(|text|, k requires 0 <= k < |text| => Clamp(CharToInt(text[k], limit)))
  }

  /** The red channel of a filled canvas, read in visiting order, is the
      sequence of cell values: the narrowed text, then sentinels. */
  lemma RedsOfRaster(text: Text, limit: int, width: nat, height: nat)
    requires limit != 0
    ensures Reds(Raster(text, limit, width, height)) ==
      seq(width * height, i requires 0 <= i < width * height => CellValue(text, limit, i))
  {
    var image := Raster(text, limit, width, height);
    forall i | 0 <= i < width * height
      ensures Reds(image)[i] == CellValue(text, limit, i)
    {
      VisitCell(width, height, i);
      var x, y := i / height, i % height;
      assert Reds(image)[i] == Channel(image, x, y, 0);
    }
  }

  /** Decoding a canvas of any size filled from `text` gives back the
      narrowed text, cut to the `width * height` characters that fit. */
  lemma DecodeRaster(text: Text, limit: int, width: nat, height: nat)
    requires limit != 0
    ensures Decode(Raster(text, limit, width, height)) ==
      Narrow(text[..Min(|text|, width * height)], limit)
  {
    var image := Raster(text, limit, width, height);
    var m := Min(|text|, width * height);
    var payload := Narrow(text[..m], limit);
    var zeros: seq<Byte> := seq(width * height - m, _ => 0);
    RedsOfRaster(text, limit, width, height);
    assert Reds(image) == payload + zeros;
    DropZerosAppend(payload, zeros);
    DropZerosKeepsNonzero(payload);
    DropZerosAllZero(zeros);
  }

  /** With the default limit of 256, every character comes back as its code
      unit modulo 256, with 0 turned into 1. */
  lemma DecodeEncoded(text: Text)
    ensures |Decode(Encoded(text, DefaultLimit))| == |text|
    ensures forall k :: 0 <= k < |text| ==>
      Decode(Encoded(text, DefaultLimit))[k] == (if text[k] % 256 == 0 then 1 else text[k] % 256)
  {
    var size := GetImageSize(|text|);
    DecodeRaster(text, DefaultLimit, size.0, size.1);
    assert text[..Min(|text|, size.0 * size.1)] == text;
  }

  /** Narrowing leaves a text unchanged exactly when its code units all lie
      in [1, 255]. */
  lemma NarrowFixed(text: Text)
    ensures Narrow(text, DefaultLimit) == text <==> forall k :: 0 <= k < |text| ==> 1 <= text[k] <= 255
  {
    var narrowed := Narrow(text, DefaultLimit);
    if narrowed == text {
      forall k | 0 <= k < |text|
        ensures 1 <= text[k] <= 255
      {
        assert narrowed[k] == text[k];
      }
    }
    if forall k :: 0 <= k < |text| ==> 1 <= text[k] <= 255 {
      forall k | 0 <= k < |text|
        ensures narrowed[k] == text[k]
      {
        assert CharToInt(text[k], DefaultLimit) == text[k];
      }
    }
  }

  /** Round trip: a text decodes to itself exactly when all its code units
      lie in [1, 255]; any other code unit comes back changed. */
  lemma RoundTrip(text: Text)
    ensures Decode(Encoded(text, DefaultLimit)) == text <==>
      forall k :: 0 <= k < |text| ==> 1 <= text[k] <= 255
  {
    var size := GetImageSize(|text|);
    DecodeRaster(text, DefaultLimit, size.0, size.1);
    assert text[..Min(|text|, size.0 * size.1)] == text;
    NarrowFixed(text);
  }

  /** The documented loss: a code unit that is 0 modulo 256 (256 itself,
      say) becomes the substitute 1 and decodes as 1. */
  lemma SentinelCollision(u: CodeUnit)
    requires u % 256 == 0
    ensures Decode(Encoded([u], DefaultLimit)) == [1]
  {
    var decoded := Decode(Encoded([u], DefaultLimit));
    DecodeEncoded([u]);
    assert decoded == [decoded[0]];
  }

  /** A code unit above 255 decodes as its low byte (U+0141 as 0x41). */
  lemma HighCodeUnitNarrowed(u: CodeUnit)
    requires u > 255 && u % 256 != 0
    ensures Decode(Encoded([u], DefaultLimit)) == [u % 256]
    ensures Decode(Encoded([u], DefaultLimit)) != [u]
  {
    var decoded := Decode(Encoded([u], DefaultLimit));
    DecodeEncoded([u]);
    assert decoded == [decoded[0]];
  }

  /** The empty text fills the whole canvas with sentinels and decodes to "". */
  lemma EmptyText(limit: int)
    requires limit != 0
    ensures forall x, y :: 0 <= x < Encoded([], limit).width && 0 <= y < Encoded([], limit).height ==>
      Channel(Encoded([], limit), x, y, 0) == 0
    ensures Decode(Encoded([], limit)) == []
  {
    var size := GetImageSize(0);
    forall x, y | 0 <= x < size.0 && 0 <= y < size.1
      ensures Channel(Encoded([], limit), x, y, 0) == 0
    {
    }
    DecodeAllZero(Encoded([], limit));
  }

  /** A cell whose visit index falls inside a text of 8-bit code units holds
      that very code unit in its red byte. */
  lemma PayloadCell(text: Text, width: nat, height: nat, x: nat, y: nat, k: nat)
    requires x < width && y < height && k == x * height + y && k < |text|
    requires 1 <= text[k] <= 255
    ensures Channel(Raster(text, DefaultLimit, width, height), x, y, 0) == text[k]
  {
  }

  /** "abcd" on its 3 by 2 canvas: "ab" fill column 0, "cd" column 1, and
      column 2 holds the two terminators. */
  lemma FourCharacterLayout(text: Text)
    requires |text| == 4
    requires forall k :: 0 <= k < |text| ==> 1 <= text[k] <= 255
    ensures Encoded(text, DefaultLimit) == Raster(text, DefaultLimit, 3, 2)
    ensures Channel(Encoded(text, DefaultLimit), 0, 0, 0) == text[0]
    ensures Channel(Encoded(text, DefaultLimit), 0, 1, 0) == text[1]
    ensures Channel(Encoded(text, DefaultLimit), 1, 0, 0) == text[2]
    ensures Channel(Encoded(text, DefaultLimit), 1, 1, 0) == text[3]
    ensures Channel(Encoded(text, DefaultLimit), 2, 0, 0) == 0
    ensures Channel(Encoded(text, DefaultLimit), 2, 1, 0) == 0
  {
    ImageSizeOfFour();
    var w, h := 3, 2;
    PayloadCell(text, w, h, 0, 0, 0);
    PayloadCell(text, w, h, 0, 1, 1);
    PayloadCell(text, w, h, 1, 0, 2);
    PayloadCell(text, w, h, 1, 1, 3);
  }

  /** Encoding with `encodeText` and decoding with the pixel scan, as the
      application does through a saved image, returns the text. */
  method EncodeThenDecode(text: Text) returns (decoded: Text)
    requires forall k :: 0 <= k < |text| ==> 1 <= text[k] <= 255
    ensures decoded == text
  {
    var image := EncodeText(text, DefaultLimit);
    decoded := DecodePixels(image);
    RoundTrip(text);
  }
}
