/** Values shared by every part of the codec: the JavaScript primitives the
    source relies on, written out with their exact integer semantics. */
module Types {

  /** One UTF-16 code unit, what `text[i]`, `charCodeAt(0)` and
      `String.fromCharCode` work with in JavaScript. */
  type CodeUnit = u: int | 0 <= u < 0x1_0000

  /** A JavaScript string: a sequence of UTF-16 code units. */
  type Text = seq<CodeUnit>

  /** One channel of an RGBA pixel as held by a `Uint8ClampedArray`. */
  type Byte = b: int | 0 <= b < 256

  /** The failure-compatible outcome of an operation that may throw. */
  datatype Result<+T> = Ok(value: T) | Err(message: string)

  function Abs(x: int): nat
  {
    if x < 0 then -x else x
  }

  /** What storing a number into a `Uint8ClampedArray` keeps: the value
      saturated to the byte range. */
  function Clamp(v: int): (b: Byte)
    ensures 0 <= v < 256 ==> b == v
    ensures v < 0 ==> b == 0
    ensures v >= 256 ==> b == 255
  {
    if v < 0 then 0 else if v > 255 then 255 else v
  }

  /** The canvas `ImageData` the codec fills and reads: `width` by `height`
      pixels stored row by row, four channels (R, G, B, A) per pixel. */
  datatype ImageData = ImageData(width: nat, height: nat, data: seq<Byte>)
  {
    /** The buffer holds exactly four bytes per pixel, as the browser
        guarantees for every `ImageData`. */
    predicate Valid()
    {
      |data| == 4 * (width * height)
    }
  }
}
