# text-to-image codec, modelled in Dafny

The application turns a string into a grayscale image and reads it back.
Every character becomes one pixel. The pixel's R, G and B channels hold the
character's UTF-16 code unit reduced modulo a `limit` (256 by default), with 0
replaced by 1. Cells after the text are 0: the null terminator. The decoder
walks the pixels in the same column-major order and turns every nonzero red
byte back into a character.

This project models the pure core of that codec:

- **Character mapper** (`convertCharToInt`, module `Utilities`).
- **Dimension planner** (`getImageSize` and its private `getFactors`; modules
  `Utilities` and `Divisors`). The text length is padded to an even pixel
  count. That count is split into its middle divisor pair, so the canvas is as
  square as its divisors allow.
- **Raster encoder** (the fill loop of `encodeText`, module `Encoder`). Cells
  are visited with `x` outer and `y` inner, but stored row by row at offset
  `(y * width + x) * 4`. Module `Grid` holds that geometry.
- **Raster decoder** (the pixel scan inside `decodeImage`, module `Decoder`).
- **Round trip** (module `RoundTrip`): what decoding an encoded text returns.
  It is the text itself exactly when every code unit lies in [1, 255].
  Otherwise it is the text with each code unit narrowed to a byte.

Modelling choices:

- A string is a `seq<CodeUnit>` of UTF-16 code units (0 to 65535). This is
  what `text[i]`, `charCodeAt` and `String.fromCharCode` operate on.
- The pixel buffer is the `Uint8ClampedArray` of an `ImageData`: a
  `seq<Byte>` of length `4 * (width * height)`. Storing a value clamps it to
  [0, 255] (`Types.Clamp`). This only matters when `|limit| > 256`.
- JavaScript's `%` truncates toward zero. A code unit is never negative, so
  `code % limit` equals the non-negative remainder modulo `|limit|`; the model
  writes it that way.
- A canvas from `createImageData` starts all zero.
- `getFactors` can throw. Its result is a `Result` whose `Err` case is the
  thrown error.
- The loop bound `i <= Math.sqrt(num)` is modelled as `i * i <= num`. The two
  agree for integers.
- `Array.prototype.sort` with the numeric comparator is modelled as a
  functional insertion sort. It is proved to be an ascending permutation.
- The model follows the code on `getFactors(0)`. The doc comment of
  `getFactors` (dist/utilities.js:47) asks for a positive number, but the
  code rejects only negative ones: `getFactors(0)` returns the empty list.
  The planner never asks for 0, because the padded length is at least 2.
- The doc comment of `convertCharToInt` promises a value between 1 and
  `limit - 1`. That holds for `|limit| >= 2`. With `limit` 1 every character
  maps to 1. The model states the range under that condition.
- `src/encode.ts` takes its canvas size from an aspect-ratio planner whose
  source is not part of this model. `Encoder.Fill` therefore takes `width`
  and `height` as arbitrary inputs. `Encoder.EncodeText` is the
  `dist/encode.js` version, which uses the factor-pair planner.

## Model

| member | source | states |
|---|---|---|
| Utilities.CharToInt | dist/utilities.js:10-15 | The mapped value is never the 0 sentinel. For `abs(limit) >= 2` it lies in [1, abs(limit)-1]. A code already in [1, abs(limit)-1] is kept unchanged. A code that is a multiple of the limit maps to 1. A code that is not a multiple of the limit maps to a value congruent to it modulo the limit. |
| Utilities.TrueLength | dist/utilities.js:21-29 | The padded pixel count is even, at least 2, and exceeds the text length by 1 or 2. It exceeds it by exactly 2 iff the text length is even. |
| Utilities.GetImageSize | dist/utilities.js:21-44 | `width * height` is exactly the padded length, with `1 <= height <= width`. Width equals height iff the padded length is a perfect square. |
| Utilities.ImageSizeNearSquare | dist/utilities.js:30-42 | No divisor of the padded length lies strictly between height and width, so the planned canvas is the squarest exact factorisation. |
| Utilities.ImageSizeOfFour | dist/utilities.js:21-44 | A four-character text is planned on a 3 by 2 canvas. |
| Divisors.Isqrt | dist/utilities.js:55 | The integer square root `r` satisfies `r*r <= n < (r+1)*(r+1)`. For `num >= 1` it is the largest `i` that passes the `i <= Math.sqrt(num)` test. |
| Divisors.LowerSpec | dist/utilities.js:55-57 | The divisors the loop pushes as `i` below the square root are exactly the divisors `d` with `d*d < n`, in strictly ascending order. The root of a perfect square is pushed separately. |
| Divisors.UpperSpec | dist/utilities.js:58-60 | The cofactors `n / i` the loop pushes are exactly the divisors `q` with `q*q > n`, in strictly ascending order. |
| Divisors.Pairing | dist/utilities.js:56-60 | Divisors pair up around the square root. The k-th cofactor from the bottom is `n` divided by the k-th small divisor from the top. |
| Divisors.DivisorPieces | dist/utilities.js:54-63 | The small divisors, the root of a perfect square and the cofactors, put together in that order, form a strictly ascending list that contains `d` iff `d` is a positive divisor of `n`. For 0 the pieces are empty. |
| Divisors.FactorList | dist/utilities.js:54-63 | For `n >= 1` the sorted divisor list is strictly ascending and contains `d` iff `d` is a positive divisor of `n`. For 0 it is empty. |
| Divisors.MiddleDivisors | dist/utilities.js:30-42 | The divisor list has odd length iff `n` is a perfect square. The middle element then squares to `n`. Otherwise the middle pair multiplies to `n`. |
| Divisors.AscendingUnique | dist/utilities.js:63 | Two strictly ascending lists with the same elements are equal. The sorted output is therefore determined by the set of divisors found. |
| Divisors.Insert | dist/utilities.js:63 | Inserting adds exactly one occurrence of the element and keeps an ascending list ascending. It keeps a strictly ascending list strict when the element is new. |
| Divisors.Sort | dist/utilities.js:63 | The numeric sort returns a permutation of its input in ascending order. For duplicate-free input the order is strictly ascending. |
| Divisors.CollectStep | dist/utilities.js:55-62 | One loop round keeps the collected list duplicate-free. It extends the list from "divisors or cofactors below `i`" to "below `i + 1`". |
| Divisors.GetFactors | dist/utilities.js:50-64 | It throws iff `num < 0`. Otherwise it returns exactly the positive divisors of `num`, strictly ascending and without duplicates, and `[]` for 0. |
| Grid.CellPosition | dist/encode.js:27-29 | A cell in the grid has its four bytes inside the buffer. Its visit index `x*height + y` lies in the grid, and its row-major position decodes back to `(x, y)`. |
| Grid.VisitCell | dist/encode.js:27-28 | Every visit index below `width*height` belongs to a cell in the grid: column `i / height`, row `i % height`. |
| Grid.VisitInjective | dist/encode.js:27-29 | Two pixels with the same visit index are the same pixel, so the nested loops reach each cell exactly once. |
| Grid.PixelsDisjoint | dist/encode.js:29 | Distinct cells own disjoint four-byte groups, so no store of one cell overwrites another's. |
| Encoder.CellValue | dist/encode.js:30-44 | The red, green and blue value of a visited cell is nonzero exactly for the first `text.length` visits. No payload cell collides with the terminator. |
| Encoder.SnapshotStep | dist/encode.js:29-45 | Visiting a cell changes only its own four bytes. They get the cell value in R, G and B and 255 in alpha. |
| Encoder.StoreFour | dist/encode.js:33-36 | The four stores at `pixelIndex .. pixelIndex + 3` write exactly one pixel and leave every other byte as it was. |
| Encoder.SnapshotDiff | dist/encode.js:29-45 | The buffer after `n + 1` visits is the buffer after `n` visits with only the `n`-th cell's pixel written. |
| Encoder.WriteCell | dist/encode.js:29-45 | The loop body's four stores turn the buffer after `n` visited cells into the buffer after `n + 1`. |
| Encoder.Fill | src/encode.ts:32-55 | For any canvas size, the loop yields the raster in which visit `i` holds the mapped character `i`, or 0 past the text, with alpha 255. `textIndex` ends at `min(text.length, width*height)`, so surplus characters are dropped. |
| Encoder.EncodeText | dist/encode.js:11-50 | The encoded canvas is the planned size with `1 <= height <= width`. Its cell count is the padded length, strictly more than the text length, so at least one terminator cell exists. |
| Encoder.FilledCell | dist/encode.js:29-45 | After all cells are visited, the four bytes of cell `(x, y)` hold the value of its visit index `x*height + y` in R, G and B and 255 in alpha. |
| Encoder.FilledCells | dist/encode.js:29-45 | Read through the channel accessor, every cell of the filled buffer has the value of its visit index in R, G and B and 255 in alpha. |
| Encoder.Raster | src/encode.ts:32-55 | The filled canvas has the given size and a buffer of `4*width*height` bytes. At every cell R, G and B hold the value of its visit index `x*height + y`, and alpha is 255. |
| Encoder.Encoded | dist/encode.js:11-50 | The encoded canvas is the planned size with `1 <= height <= width`. Its cell count is the padded length, which is strictly more than the text length. |
| Encoder.RasterEndsWithSentinel | src/encode.ts:47-53 | On a canvas with more cells than characters, the last visited cell is a 0 terminator. |
| Encoder.EncodedEndsWithSentinel | dist/encode.js:12-17 | The planned canvas is never empty, and its last visited cell is always a 0 terminator. |
| Decoder.Scan | dist/decode.js:33-42 | Scanning `n` cells yields at most `n` characters, each with a code in [1, 255]. |
| Decoder.ScanStep | dist/decode.js:35-40 | Reading the red byte at `(y*width + x)*4` extends the scan by visit `x*height + y`: one character if the byte is nonzero, none if it is 0. |
| Decoder.DecodePixels | dist/decode.js:31-43 | The nested scan returns the decoded text of the pixels. That text has at most `width*height` characters and never contains a 0. |
| Decoder.DropZeros | dist/decode.js:37-40 | Filtering out zeros keeps exactly the nonzero values. The length drops by the number of zeros. |
| Decoder.DropZerosAppend | dist/decode.js:37-40 | The zero filter distributes over concatenation. |
| Decoder.DropZerosSkipsZero | dist/decode.js:37-40 | A zero anywhere is skipped without stopping the traversal. |
| Decoder.DropZerosKeepsNonzero | dist/decode.js:38-39 | Nonzero values pass through the filter unchanged. |
| Decoder.DropZerosAllZero | dist/decode.js:37-40 | An all-zero sequence filters to nothing. |
| Decoder.ScanFilters | dist/decode.js:33-42 | The scan of the first `n` cells equals the red bytes of those cells, in visit order, with zeros removed. |
| Decoder.Decode | dist/decode.js:31-43 | The decoded text is the red channel in visit order with zeros removed. Its length is the cell count minus the number of zero red bytes. |
| Decoder.DecodeAllZero | dist/decode.js:31-43 | An image whose red channel is all zero decodes to the empty string. This includes an image with no pixels. |
| RoundTrip.Narrow | dist/utilities.js:10-15 | Narrowing keeps the text's length and never yields the 0 sentinel. |
| RoundTrip.RedsOfRaster | dist/decode.js:33-36 | Read in the encoder's visit order, the red channel of a filled canvas is the sequence of cell values. |
| RoundTrip.DecodeRaster | dist/decode.js:33-42 | Decoding a canvas of any size filled from a text gives the narrowed text, cut to the characters that fit. |
| RoundTrip.DecodeEncoded | dist/decode.js:39 | With limit 256, decoding the encoded text returns as many characters as the text has. Each comes back as its code unit modulo 256, with 0 turned into 1. |
| RoundTrip.NarrowFixed | dist/utilities.js:11-14 | Narrowing leaves a text unchanged iff all its code units are in [1, 255]. |
| RoundTrip.RoundTrip | dist/decode.js:33-42 | Decoding the encoded text with limit 256 returns the text iff every code unit is in [1, 255]. |
| RoundTrip.SentinelCollision | dist/utilities.js:11-13 | A character whose code is a multiple of 256 comes back as code 1. |
| RoundTrip.HighCodeUnitNarrowed | dist/utilities.js:11 | A code unit above 255 comes back as its low byte, not as itself. |
| RoundTrip.EmptyText | dist/encode.js:39-45 | The empty string gives a canvas of terminators only, which decodes to the empty string. |
| RoundTrip.PayloadCell | dist/encode.js:30-36 | With limit 256, a payload cell holding a code in [1, 255] holds exactly that code in red. |
| RoundTrip.FourCharacterLayout | dist/encode.js:27-45 | A four-character text fills column 0 with characters 0 and 1 and column 1 with characters 2 and 3. Column 2 of its 3 by 2 canvas holds the two terminators. |
| RoundTrip.EncodeThenDecode | dist/decode.js:31-43 | Running the encoder and then the pixel scan returns the original text whenever all its code units are in [1, 255]. |

## Left out

- `src/index.ts` and `dist/index.js` are not part of this model. They only wire DOM events, tabs, alerts, the clipboard and timers.
- `downloadImage` is left out. It is Blob, object-URL and link-click I/O.
- The `FileReader`, `Image`, `Promise`, `drawImage` and `getImageData` plumbing of `decodeImage` is left out. The decoder takes the `ImageData` as given, with four bytes per pixel as the browser guarantees.
- The `getContext` failure is left out. `encodeText` and `decodeImage` throw or reject when no 2D context exists; that depends on the browser.
- PNG encoding, colour space and gamma are left out. The model assumes the saved image returns the same bytes.
- The aspect-ratio `getImageSize(textLength, aspectRatio)` used by `src/encode.ts` is left out. Its source is not part of this model and it relies on floating-point `sqrt` and `ceil`. `Encoder.Fill` holds for any width and height instead.
- Utilities.CharToInt: `limit` 0 (which makes `%` return NaN) and non-integer limits are not modelled. The mapper requires a nonzero integer limit.
- `createImageData` rejects a zero width or height. That browser check is not modelled. The factor-pair planner never asks for a zero size.
- Decoder.Scan: its own contract only bounds the length and the character range. The full meaning, the red channel with zeros removed, is stated by `Decoder.ScanFilters` and by the contract of `Decoder.Decode`.
