# Image analyzer commands — a Dafny model

This project models the pixel-buffer commands of the image analyzer's back end
(`src-tauri/src/commands/mod.rs`). An image is an `ImageData` record: width, height, a
format tag and a row-major RGBA byte buffer.

- **Histogram** (`analyze_image`): four vectors of 256 zeros (red, green, blue,
  luminosity), then one pass over `data.chunks(4)`. A chunk shorter than four bytes
  is skipped. So is a pixel whose alpha byte is 0. Every other pixel adds one to bin
  r of red, g of green and b of blue. It also adds one to bin `lum(r, g, b).min(255)`
  of luminosity.
- **Brightness and contrast** (`adjust_brightness`, `adjust_contrast`): clone the
  buffer, then rewrite bytes 0, 1 and 2 of every whole chunk (`chunks_exact_mut(4)`)
  with a per-channel formula. Width, height and format are copied over.
- **Grayscale** (`convert_to_grayscale`): the same loop, but all three colour bytes of
  a pixel get one value computed from that pixel's red, green and blue bytes.

The per-pixel arithmetic is `f32` in the source. The model does not interpret it.
Each formula is a function parameter: `lum` (the luminosity before the clamp),
`scale` (brightness), `stretch` (contrast) and `gray` (grayscale). Every property
below therefore holds whatever those formulas compute. Rust's saturating `as u8`
cast is why `scale`, `stretch` and `gray` return a byte. The `usize` cast is why
`lum` returns a natural number.

Files:

- `models.dfy`, module `Models`: `Byte`, `U32`, `ImageData`, `HistogramData`, `Result`
  (the records of `src-tauri/src/models/mod.rs`).
- `slices.dfy`, module `Slices`: `Chunks`, Rust's `slice::chunks(4)`.
- `commands.dfy`, module `Commands`: the histogram loop with its specification
  `Histogram`, and the three transforms with their specifications `MapColor` and
  `Grayscale`. Also the lemmas about all of them.

The histogram loop keeps its four vectors as `seq<nat>` values that it reassigns bin
by bin, as the source mutates its four `Vec`s. The transforms copy the buffer into an
`array` and rewrite it in place, chunk by chunk, as the source does with its clone.

The intended rule for these buffers is that one whose length is not a multiple of 4,
or is not width × height × 4, is rejected with an error before any processing. The
code never checks this. The model follows the code: any buffer is accepted, and a
trailing partial chunk is handled exactly as `chunks` and `chunks_exact_mut` handle it.

## Model

| member | source | states |
|---|---|---|
| `Slices.ChunksAt` | src-tauri/src/commands/mod.rs:30-31 | describes `Slices.Chunks`, the model of `data.chunks(4)`: it yields ceil(len/4) chunks; chunk k is bytes 4k up to 4k+4 or the end of the buffer |
| `Slices.ChunksAppend` | src-tauri/src/commands/mod.rs:31 | splitting a buffer at a multiple of 4 splits its chunk list there: only the last chunk can be short |
| `Commands.ComputeHistogram` | src-tauri/src/commands/mod.rs:22-48 | the loop's four vectors equal the reference definition `Commands.Histogram(data, lum)`: bin v of each channel counts the chunks of `Chunks(data)` that are `Commands.Counted` (four bytes long, line 32, and alpha > 0, line 38) and fall in bin v |
| `Commands.Bins` | src-tauri/src/commands/mod.rs:23-28 | every histogram vector has exactly 256 bins |
| `Commands.LuminosityBin` | src-tauri/src/commands/mod.rs:44-45 | the luminosity index is `lum` when `lum` is at most 255 and exactly 255 when `lum` is above 255; it is never above 255 nor above `lum` |
| `Commands.BinOf` | src-tauri/src/commands/mod.rs:33-45 | every increment of every vector hits an index below 256, so no bin access is out of bounds |
| `Commands.HistogramOfShortBuffer` | src-tauri/src/commands/mod.rs:23-32 | a buffer with no whole pixel leaves all four vectors at 256 zeros |
| `Commands.PartialChunkIgnored` | src-tauri/src/commands/mod.rs:31-32 | appending a trailing partial chunk (1 to 3 bytes) to a 4-aligned buffer changes no bin |
| `Commands.TransparentPixelIgnored` | src-tauri/src/commands/mod.rs:36-38 | appending a pixel with alpha 0 changes no bin |
| `Commands.VisiblePixelCounted` | src-tauri/src/commands/mod.rs:38-46 | appending a pixel with alpha > 0 adds one to red[r], green[g], blue[b] and luminosity[min(lum,255)], and changes nothing else |
| `Commands.BinIsPixelCount` | src-tauri/src/commands/mod.rs:31-46 | bin v of each vector equals the number of whole pixels with alpha > 0 whose red (green, blue, clamped luminosity) value is v |
| `Commands.HistogramSums` | src-tauri/src/commands/mod.rs:38-46 | each of the four vectors sums to the number of whole pixels with alpha > 0, so all four sums are equal |
| `Commands.CountersFitU32` | src-tauri/src/models/mod.rs:12-17 | every bin is at most len/4, so the `u32` bins cannot overflow on a buffer shorter than 2^34 bytes |
| `Commands.MapColor` | src-tauri/src/commands/mod.rs:92-96 | the per-channel rewrite keeps the buffer length |
| `Commands.Grayscale` | src-tauri/src/commands/mod.rs:128-135 | the grayscale rewrite keeps the buffer length |
| `Commands.MapColorAt` | src-tauri/src/commands/mod.rs:112-116 | alpha bytes and every byte of a trailing partial chunk are unchanged; each colour byte x of a whole chunk becomes f(x) |
| `Commands.MapColorPixels` | src-tauri/src/commands/mod.rs:92-96 | each whole pixel (r, g, b, a) becomes (f(r), f(g), f(b), a) |
| `Commands.GrayscaleKeeps` | src-tauri/src/commands/mod.rs:126-135 | grayscale leaves alpha bytes and every byte of a trailing partial chunk unchanged |
| `Commands.GrayscalePixels` | src-tauri/src/commands/mod.rs:128-135 | each whole pixel (r, g, b, a) becomes (v, v, v, a) with v = gray(r, g, b) |
| `Commands.GrayscaleAppend` | src-tauri/src/commands/mod.rs:128 | grayscale works chunk by chunk: on a 4-aligned split it is the concatenation of the two halves' results |
| `Commands.MapColorInPlace` | src-tauri/src/commands/mod.rs:90-96 | the in-place `chunks_exact_mut` loop leaves the array equal to `MapColor` of its old contents |
| `Commands.GrayscaleInPlace` | src-tauri/src/commands/mod.rs:126-135 | the in-place grayscale loop leaves the array equal to `Grayscale` of its old contents |
| `Commands.Clone` | src-tauri/src/commands/mod.rs:89 | the working buffer is a fresh copy of the input, so the input is never written |
| `Commands.AdjustBrightness` | src-tauri/src/commands/mod.rs:85-102 | returns `Ok` with width, height and format of the input and data `MapColor(data, scale)` |
| `Commands.AdjustContrast` | src-tauri/src/commands/mod.rs:105-122 | returns `Ok` with width, height and format of the input and data `MapColor(data, stretch)` |
| `Commands.ConvertToGrayscale` | src-tauri/src/commands/mod.rs:125-141 | returns `Ok` with width, height and format of the input and data `Grayscale(data, gray)` |
| `Commands.MapColorCompose` | src-tauri/src/commands/mod.rs:92-96 | two adjustments in a row equal one adjustment by the composed channel map |
| `Commands.MapColorIdentity` | src-tauri/src/commands/mod.rs:112-116 | a channel map that fixes every byte leaves the buffer unchanged |
| `Commands.GrayscaleIsGray` | src-tauri/src/commands/mod.rs:132-134 | after grayscale, bytes 0, 1 and 2 of every whole chunk are equal |
| `Commands.MapColorKeepsGray` | src-tauri/src/commands/mod.rs:112-116 | adjusting brightness or contrast keeps a gray buffer gray |
| `Commands.GrayHistogram` | src-tauri/src/commands/mod.rs:39-41 | for a gray buffer the red, green and blue vectors are identical |
| `Commands.SameAlphaSameTotal` | src-tauri/src/commands/mod.rs:36-38 | two buffers with the same length and alpha bytes have histogram vectors with the same sums |
| `Commands.TransformsKeepHistogramTotal` | src-tauri/src/commands/mod.rs:36-46 | none of the three transforms changes the sum of any histogram vector |
| `Commands.MapColorHits` | src-tauri/src/commands/mod.rs:39-41 | a whole pixel of the adjusted buffer hits bin v of a colour channel exactly when it has alpha > 0 and f of its original byte is v |
| `Commands.MapColorHistogram` | src-tauri/src/commands/mod.rs:39-41 | after brightness or contrast, bin v of a colour vector counts the pixels with alpha > 0 whose original byte f maps to v |

## Left out

- `load_image` and `save_image`: file I/O and image decoding and encoding through an external crate.
- The average brightness and contrast of `analyze_image`: `f32` weighted sums, a division by width × height, and a square root. The result is NaN for a zero-pixel image.
- The `dominant_colors` of `analyze_image`: a fixed placeholder colour, with no logic.
- ComputeHistogram: returns only the histogram part of `analyze_image`'s `AnalysisResult`, because the other fields are the parts left out above.
- The `f32` formulas of the luminosity bin, brightness, contrast and grayscale: they are the parameters `lum`, `scale`, `stretch` and `gray`. No property depends on what they compute. No claim is made that they equal an exact integer formula.
- AdjustBrightness: takes the per-channel map that `amount` induces, not `amount` itself, because the map is `f32` arithmetic. The same holds for AdjustContrast.
- CountersFitU32: bins are unbounded `nat`s. Beyond 2^34 bytes a `u32` bin could overflow (a panic in debug builds, wrap-around in release builds). That case is not modelled.
- The Tauri builder, plugin registration and command wiring (`src-tauri/src/lib.rs`), and the `async` command attributes.
- Serialization of the records in `src-tauri/src/models/mod.rs`: only their fields are modelled.
