# YUV frame analysis of the CameraX / OpenCV demo, modelled in Dafny

The Android app feeds every camera frame to `LightnessAnalyzer`
(`MainActivity.kt`). Its `yuvToRgba` looks at a `YUV_420_888` frame and decides
whether the chroma samples are interleaved or planar. Interleaved chroma is
NV12 when the U view starts first in memory and NV21 when V does. Planar
chroma (I420) is packed into one contiguous array: Y, then U, then V, with any
padding at the end of the chroma rows dropped. `analyze` then turns the
RGBA Mat into a gray bitmap, hands it to the listener as `"Frame"` and closes
the image. The UI thread turns each bitmap by a number of degrees chosen from
the display rotation.

The project has five modules:

- `Jvm` (`jvm.dfy`): the Java exceptions that can escape the analyzer, and
  `java.nio.ByteBuffer` as a class. The class has an immutable byte content
  and a mutable read position. Its bulk `get` and its `position(n)` check
  their arguments in the same order as Java does.
- `Layout` (`layout.dfy`): the frame (format tag, size, planes with strides,
  start address and bytes), the format guard, and the chroma layout
  classifier. Kotlin's `assert` throws only when JVM assertions are enabled,
  so the classifier takes that switch as a parameter.
- `I420Pack` (`i420_pack.dfy`): the planar packer. Its specification is given
  on values: `PackedI420` gives the packed array or the exception thrown.
  `PackI420` fills an `array<byte>` in place, as the Kotlin code does. It
  makes one bulk read for Y. Then it either makes one bulk read per chroma
  plane, or runs two row-by-row `for` loops that move each plane's buffer
  position past the padding between rows. `PackI420` is proved to leave
  exactly `PackedI420` in the array, and the buffer positions where the
  code leaves them.
- `Analyzer` (`analyzer.dfy`): `yuvToRgba` and `analyze` as methods over an
  `ImageProxy` (closed or not) and a listener (the frames it has received).
  Each is proved equal to a specification function, and the lemmas state
  what `analyze` promises end to end.
- `Rotation` (`rotation.dfy`): the `when` from display rotation to degrees.

Row offsets in the packer are written as repeated addition (`RowOffset(i, s)`,
one step per row), which is how the copy loops move their cursors.
`RowOffsetIsProduct` and `SizesAreProducts` relate them to the products in
the Kotlin source (`i * s`, `width * height`, `width * (height + height / 2)`).

## Model

`Layout.IsSupported` is the format guard of lines 228 and 300, and
`Layout.AddressDifference` is the `addrDiff` of line 242. Both are plain
definitions; what they decide is stated by the rows for `Layout.Classify`,
`Analyzer.YuvToRgbaSpec` (its first clause), `Analyzer.UnsupportedFrameOnlyClosed`,
`Layout.InterleavedOrder`, `Layout.UncheckedOrder` and `Layout.ChromaSourceStartsFirst`.

| member | source | states |
|---|---|---|
| `Rotation.BitmapRotation` | app/src/main/java/com/bridgewiz/bbbbbbbbbbbbbb/MainActivity.kt:137-143 | The mapping is total: the result is always 0, 90, 180 or 270, and any value other than the four Surface constants gives 0. |
| `Rotation.RotationCompensatesDisplay` | app/src/main/java/com/bridgewiz/bbbbbbbbbbbbbb/MainActivity.kt:137-143 | For the four Surface rotations r the degrees are (90 − 90·r) mod 360, so the degrees plus 90·r are always 90 mod 360. |
| `Rotation.ShownUnrotatedIff` | app/src/main/java/com/bridgewiz/bbbbbbbbbbbbbb/MainActivity.kt:137-146 | The bitmap is shown without a Matrix rotation exactly when the display is at ROTATION_90 or reports an unknown value. |
| `Layout.Classify` | app/src/main/java/com/bridgewiz/bbbbbbbbbbbbbb/MainActivity.kt:228-251 | The frame is unsupported iff it is not YUV_420_888 with three planes. It is planar iff it is supported with chroma pixel stride ≠ 2. Interleaved (or a failed assert) holds iff the chroma pixel stride is 2. Interleaved always means NV12 from plane 1 or NV21 from plane 2. An assertion failure needs assertions on, and with assertions on a plane-0 pixel stride other than 1 or a plane-2 pixel stride other than 2 (lines 233-234) always gives one. |
| `Layout.InterleavedOrder` | app/src/main/java/com/bridgewiz/bbbbbbbbbbbbbb/MainActivity.kt:231-250 | With assertions on and well-formed pixel strides, address difference +1 gives NV12 from plane 1. −1 gives NV21 from plane 2. Any other difference is an assertion failure. |
| `Layout.ChromaSourceStartsFirst` | app/src/main/java/com/bridgewiz/bbbbbbbbbbbbbb/MainActivity.kt:242-250 | The chroma plane handed to OpenCV starts no later than the other one. With assertions on, the other starts exactly one byte after it. |
| `Layout.AssertionsOnlyReject` | app/src/main/java/com/bridgewiz/bbbbbbbbbbbbbb/MainActivity.kt:233-248 | With assertions off the classifier never fails. With them on, it either fails or gives the same answer as with them off. |
| `Layout.UncheckedOrder` | app/src/main/java/com/bridgewiz/bbbbbbbbbbbbbb/MainActivity.kt:242-250 | With assertions off, a positive address difference gives NV12 from plane 1 and any other difference (zero included) gives NV21 from plane 2. |
| `Jvm.ByteBuffer.Get` | app/src/main/java/com/bridgewiz/bbbbbbbbbbbbbb/MainActivity.kt:259-259 | A bulk relative read: IndexOutOfBounds if the destination range is outside the array, otherwise BufferUnderflow if fewer bytes remain. On success the destination range holds the next bytes and the position moves on by the length. On failure nothing changes. |
| `Jvm.ByteBuffer.SetPosition` | app/src/main/java/com/bridgewiz/bbbbbbbbbbbbbb/MainActivity.kt:278-278 | `position(n)` throws IllegalArgument outside [0, limit] and leaves the position unchanged; otherwise the position becomes n. |
| `I420Pack.RowOffsetIsProduct` | app/src/main/java/com/bridgewiz/bbbbbbbbbbbbbb/MainActivity.kt:274-287 | Advancing a cursor by `step` for each of `i` rows reaches `i * step`. |
| `I420Pack.SizesAreProducts` | app/src/main/java/com/bridgewiz/bbbbbbbbbbbbbb/MainActivity.kt:254-259 | The Y section holds `width * height` bytes and the packed array `width * (height + height / 2)`. |
| `I420Pack.SectionsFit` | app/src/main/java/com/bridgewiz/bbbbbbbbbbbbbb/MainActivity.kt:254-287 | The Y section plus two chroma sections of height/2 rows of width/2 bytes always fit in the packed array, and fill it exactly when the width is even. |
| `I420Pack.EvenWidthSectionSizes` | app/src/main/java/com/bridgewiz/bbbbbbbbbbbbbb/MainActivity.kt:254-287 | The same in products: for an even width, `width * (height + height / 2) == width * height + 2 * (height / 2) * (width / 2)`. |
| `I420Pack.ChromaRows` | app/src/main/java/com/bridgewiz/bbbbbbbbbbbbbb/MainActivity.kt:274-287 | A plane's logical chroma content (rows of width/2 bytes taken at the row stride) has exactly rows × rowWidth bytes. |
| `I420Pack.RowCopyFault` | app/src/main/java/com/bridgewiz/bbbbbbbbbbbbbb/MainActivity.kt:274-287 | The row-by-row copy of one plane can only throw BufferUnderflow (a short row read) or IllegalArgument (a position move past the limit). |
| `I420Pack.RowCopyFaultFree` | app/src/main/java/com/bridgewiz/bbbbbbbbbbbbbb/MainActivity.kt:274-287 | Padding is skipped only between rows. So the copy of a plane throws iff the plane holds fewer than (rows − 1) · stride + rowWidth bytes: no trailing padding is needed. |
| `I420Pack.TightRowCopyFault` | app/src/main/java/com/bridgewiz/bbbbbbbbbbbbbb/MainActivity.kt:274-287 | At a stride equal to the row width the copy never moves past the limit. It throws BufferUnderflow iff the plane holds fewer than rows × rowWidth bytes. |
| `I420Pack.ChromaRowsAt` | app/src/main/java/com/bridgewiz/bbbbbbbbbbbbbb/MainActivity.kt:274-287 | Byte j of row i of the logical content sits at i rows of rowWidth plus j, and comes from byte i rows of stride plus j of the plane. |
| `I420Pack.TightRowsArePrefix` | app/src/main/java/com/bridgewiz/bbbbbbbbbbbbbb/MainActivity.kt:274-287 | Rows laid out back to back (stride = rowWidth) are just the plane's first rows × rowWidth bytes. |
| `I420Pack.ChromaRowsReadOnlyBound` | app/src/main/java/com/bridgewiz/bbbbbbbbbbbbbb/MainActivity.kt:274-287 | Nothing at or after the end of the last row is read: two planes that agree up to that point have the same logical content. |
| `I420Pack.BulkChroma` | app/src/main/java/com/bridgewiz/bbbbbbbbbbbbbb/MainActivity.kt:266-271 | The unpadded chroma part fills exactly the room after Y. Its failures are ByteBuffer exceptions. |
| `I420Pack.RowChroma` | app/src/main/java/com/bridgewiz/bbbbbbbbbbbbbb/MainActivity.kt:272-287 | The padded chroma part fills exactly the room after Y. It can fail only with BufferUnderflow or IllegalArgument. |
| `I420Pack.PackedChroma` | app/src/main/java/com/bridgewiz/bbbbbbbbbbbbbb/MainActivity.kt:261-288 | Y section plus chroma part is exactly the packed size. Failures are ByteBuffer exceptions. |
| `I420Pack.PackedI420` | app/src/main/java/com/bridgewiz/bbbbbbbbbbbbbb/MainActivity.kt:254-288 | The packed array has length `width * (height + height / 2)`. Every failure is a ByteBuffer exception. |
| `I420Pack.ChromaReadEndValue` | app/src/main/java/com/bridgewiz/bbbbbbbbbbbbbb/MainActivity.kt:266-287 | A chroma buffer's position after a successful copy is `width * height / 4` on the bulk path. On the row path it is `(height/2 − 1) · chromaRowStride + width/2`, with no padding skipped after the last row. |
| `I420Pack.RowChromaValue` | app/src/main/java/com/bridgewiz/bbbbbbbbbbbbbb/MainActivity.kt:272-287 | The padded chroma part exists iff neither plane's copy throws. It is then U's rows, V's rows and zeros. |
| `I420Pack.PackedSections` | app/src/main/java/com/bridgewiz/bbbbbbbbbbbbbb/MainActivity.kt:259-288 | A packed array is the first width·height bytes of plane 0 followed by the chroma part. |
| `I420Pack.PackedFromChroma` | app/src/main/java/com/bridgewiz/bbbbbbbbbbbbbb/MainActivity.kt:259-288 | Once Y has been read, the chroma part's exception or bytes decide the result. |
| `I420Pack.PackedLuma` | app/src/main/java/com/bridgewiz/bbbbbbbbbbbbbb/MainActivity.kt:259-259 | The Y section `[0, width*height)` of the packed array equals the first `width*height` bytes of plane 0. |
| `I420Pack.PackedRowSections` | app/src/main/java/com/bridgewiz/bbbbbbbbbbbbbb/MainActivity.kt:261-288 | With nonzero padding the packed array is the Y section followed by the row-by-row chroma part. |
| `I420Pack.PackedRowParts` | app/src/main/java/com/bridgewiz/bbbbbbbbbbbbbb/MainActivity.kt:264-287 | With nonzero padding the packed array is Y, then U's rows, then V's rows, then zeros. |
| `I420Pack.PackedRowAt` | app/src/main/java/com/bridgewiz/bbbbbbbbbbbbbb/MainActivity.kt:264-287 | In the padded path, U byte j of row i is read from `i·chromaRowStride + j` of plane 1 and written at `width·height + i·(width/2) + j`. The V byte is read from the same offset of plane 2 and written `(height/2)·(width/2)` further on. Offsets are in `RowOffset` form. |
| `I420Pack.BulkMatchesRowByRow` | app/src/main/java/com/bridgewiz/bbbbbbbbbbbbbb/MainActivity.kt:266-288 | For even sizes, the bulk path and the row-by-row path at stride width/2 give the same bytes or the same exception. |
| `I420Pack.PaddedEqualsUnpadded` | app/src/main/java/com/bridgewiz/bbbbbbbbbbbbbb/MainActivity.kt:261-288 | For even sizes, a padded frame and a frame whose chroma planes hold the same rows back to back pack to the same array. |
| `I420Pack.OddWidthPaddingChangesPacking` | app/src/main/java/com/bridgewiz/bbbbbbbbbbbbbb/MainActivity.kt:261-287 | For a 3×4 frame, a padded frame (row stride 2) and the frame holding the same chroma rows back to back (row stride 1) pack to different arrays: the bulk reads take `width * height / 4` = 3 bytes per plane, the row copy 2. |
| `I420Pack.OddHeightTightThrows` | app/src/main/java/com/bridgewiz/bbbbbbbbbbbbbb/MainActivity.kt:261-287 | For a 4×3 frame, the unpadded frame throws IndexOutOfBounds on V's bulk read (2 · 3 bytes into a room of 4), while the padded frame with the same rows (row stride 3) packs. |
| `I420Pack.CopyRow` | app/src/main/java/com/bridgewiz/bbbbbbbbbbbbbb/MainActivity.kt:275-279 | One loop body: the row read, then the padding move except after the last row. It throws what these calls throw, in their order, and on success leaves the row in the array. |
| `I420Pack.ReadRow` | app/src/main/java/com/bridgewiz/bbbbbbbbbbbbbb/MainActivity.kt:274-280 | One iteration either throws exactly the fault that `RowCopyFault` places at row i, or extends the copied rows by row i and moves the position to the next row (or to the end of the last row). |
| `I420Pack.CopyRows` | app/src/main/java/com/bridgewiz/bbbbbbbbbbbbbb/MainActivity.kt:274-287 | One `for` loop throws exactly `RowCopyFault`. On success it writes the plane's logical content at the offset, leaves the rest of the array as it was, advances the offset by rows × rowWidth, and leaves the position at the end of the last row. |
| `I420Pack.ReadInto` | app/src/main/java/com/bridgewiz/bbbbbbbbbbbbbb/MainActivity.kt:269-271 | One bulk chroma read into the zero-filled tail: the exception Java throws, or the plane's first bytes placed after the prefix. |
| `I420Pack.CopyChromaBulk` | app/src/main/java/com/bridgewiz/bbbbbbbbbbbbbb/MainActivity.kt:266-271 | The bulk reads of U then V leave exactly `BulkChroma` after the Y section, or throw its exception. |
| `I420Pack.CopyChromaRows` | app/src/main/java/com/bridgewiz/bbbbbbbbbbbbbb/MainActivity.kt:272-287 | The two loops leave exactly `RowChroma` after the Y section, or throw its exception. Both positions end at the end of the last row. |
| `I420Pack.CopyChroma` | app/src/main/java/com/bridgewiz/bbbbbbbbbbbbbb/MainActivity.kt:261-288 | The branch on `chromaRowStride - width / 2 == 0` leaves exactly `PackedChroma` after Y, or throws its exception. |
| `I420Pack.PackI420` | app/src/main/java/com/bridgewiz/bbbbbbbbbbbbbb/MainActivity.kt:254-288 | The in-place pack returns exactly `PackedI420` of the three planes' bytes, or its exception. It leaves Y's position at width·height and both chroma positions at `ChromaReadEnd`. |
| `Analyzer.YuvToRgbaSpec` | app/src/main/java/com/bridgewiz/bbbbbbbbbbbbbb/MainActivity.kt:225-296 | The returned Mat is empty iff the frame fails the format guard. A converted Mat has the frame's height and width. Exceptions only come from supported frames. |
| `Analyzer.GrayOf` | app/src/main/java/com/bridgewiz/bbbbbbbbbbbbbb/MainActivity.kt:303-303 | RGBA→gray fails iff its input is not a colour Mat. Otherwise it gives a gray Mat of the same size made from it. |
| `Analyzer.ToBitmap` | app/src/main/java/com/bridgewiz/bbbbbbbbbbbbbb/MainActivity.kt:304-307 | A bitmap exists iff both sides are nonzero. It has the gray Mat's width (cols) and height (rows) and its pixels. |
| `Analyzer.GrayFrame` | app/src/main/java/com/bridgewiz/bbbbbbbbbbbbbb/MainActivity.kt:302-309 | A frame reaches the listener iff the Mat is an RGBA Mat with nonzero sides. It is labelled "Frame" with a bitmap of that size holding its gray conversion. OpenCV's error arises iff the Mat is not colour. |
| `Analyzer.ConvertFrame` | app/src/main/java/com/bridgewiz/bbbbbbbbbbbbbb/MainActivity.kt:301-309 | The body of `analyze`'s `let`: a frame comes out iff the image passes the guard, `yuvToRgba` returns and both sides are nonzero; it is labelled "Frame" and has the camera frame's width and height. |
| `Analyzer.AnalyzeSpec` | app/src/main/java/com/bridgewiz/bbbbbbbbbbbbbb/MainActivity.kt:298-314 | What `analyze` does with one proxy. An exception only comes from a frame that passes the guard; then nothing reaches the listener and `close()` is skipped. |
| `Analyzer.UnsupportedFrameOnlyClosed` | app/src/main/java/com/bridgewiz/bbbbbbbbbbbbbb/MainActivity.kt:298-314 | A missing frame, a non-YUV_420_888 frame or one without three planes emits nothing and throws nothing, but is closed. |
| `Analyzer.GuardKeepsEmptyMatOut` | app/src/main/java/com/bridgewiz/bbbbbbbbbbbbbb/MainActivity.kt:298-303 | Because `analyze` repeats `yuvToRgba`'s guard, a frame for which `yuvToRgba` returns `Mat()` is only closed: the `Mat()` never reaches the gray conversion, which only ever sees RGBA Mats of supported frames. So the gray conversion's refusal of a non-colour input never escapes `analyze`. A supported frame with a zero side still fails, as createBitmap's exception in this model (see "Left out"). |
| `Analyzer.ClosedUnlessThrown` | app/src/main/java/com/bridgewiz/bbbbbbbbbbbbbb/MainActivity.kt:298-314 | The image is closed iff no exception escapes. At most one frame is emitted, and only when the image is closed. |
| `Analyzer.EmittedFrameHasFrameSize` | app/src/main/java/com/bridgewiz/bbbbbbbbbbbbbb/MainActivity.kt:298-310 | A frame is emitted iff the image is supported, `yuvToRgba` returns, and both sides are nonzero. It is labelled "Frame" and its bitmap has the camera frame's width and height. |
| `Analyzer.AssertionsOnlyAddAssertionError` | app/src/main/java/com/bridgewiz/bbbbbbbbbbbbbb/MainActivity.kt:298-314 | With assertions off, `analyze` never throws AssertionError. With them on, it behaves as with them off unless it throws AssertionError. |
| `Analyzer.PlaneTwoRowStrideIgnored` | app/src/main/java/com/bridgewiz/bbbbbbbbbbbbbb/MainActivity.kt:261-286 | The padding computed from plane 1's row stride is applied to plane 2: plane 2's own row stride never changes the result. |
| `Analyzer.PaddedFrameAnalyzesAsUnpadded` | app/src/main/java/com/bridgewiz/bbbbbbbbbbbbbb/MainActivity.kt:254-309 | End to end: an even-sized planar frame with padded chroma rows converts without an exception. It is analyzed exactly like the frame whose chroma planes hold the same rows back to back. |
| `Analyzer.PlanarToRgba` | app/src/main/java/com/bridgewiz/bbbbbbbbbbbbbb/MainActivity.kt:253-293 | The planar branch, run on fresh buffers of the planes, gives the I420 Mat of `PackedI420`'s bytes, or its exception. |
| `Analyzer.YuvToRgba` | app/src/main/java/com/bridgewiz/bbbbbbbbbbbbbb/MainActivity.kt:225-296 | The method with Kotlin's branches returns exactly `YuvToRgbaSpec`. |
| `Analyzer.ImageProxy.Close` | app/src/main/java/com/bridgewiz/bbbbbbbbbbbbbb/MainActivity.kt:313-313 | After `close()` the proxy is closed. |
| `Analyzer.FrameListener.Accept` | app/src/main/java/com/bridgewiz/bbbbbbbbbbbbbb/MainActivity.kt:309-309 | The listener call appends exactly one frame (message, bitmap) to what has been received. |
| `Analyzer.Analyze` | app/src/main/java/com/bridgewiz/bbbbbbbbbbbbbb/MainActivity.kt:298-314 | `analyze` throws exactly `AnalyzeSpec`'s exception. It appends exactly the emitted frames to the listener, and closes the proxy exactly when `AnalyzeSpec` says it reaches `close()`. |

## Left out

- The colour arithmetic of `Imgproc.cvtColorTwoPlane` and `Imgproc.cvtColor` (lines 246, 249, 292, 303) is native OpenCV code. It is kept opaque: a converted Mat records the conversion code, its size and the bytes it was made from. OpenCV's own checks on its inputs (even sizes, the row count of an I420 Mat) are not modelled. The only one kept is that the gray conversion refuses a Mat that is not a colour Mat.
- `Mat` construction, `Mat.put`, and `dataAddr()` (lines 239-242, 290-291) are native memory wrappers. A plane's view start is an integer `address` in a backing store shared by the frame's planes. `Utils.matToBitmap` (line 307) is modelled as handing the gray Mat to the bitmap.
- For a frame with a zero side, the model attributes the failure to `Bitmap.createBitmap`. OpenCV may already refuse the empty Mat in the colour conversion. Either way an exception escapes and `close()` is skipped.
- The bitmap rotation by `android.graphics.Matrix` and its try/catch (lines 145-163) are floating-point graphics. Only the choice of degrees is modelled.
- Camera setup, permissions, photo capture, toasts, the executor, `runOnUiThread` and the frame-dropping backpressure of `ImageAnalysis` (lines 58-222) are UI, I/O and threading, and are not part of this model.
- Kotlin `Int` arithmetic is 32-bit. The model uses unbounded integers, so `width * (height + height / 2)` and `width * height` never overflow here. Camera frame sizes are far below the overflow point.
- The buffer positions after an exception are not stated: the exception ends the call, and the buffers are not used again.
- `Image.Plane.getBuffer` is modelled as a fresh buffer at position 0 for each plane, with the three buffers distinct objects.
- The code has no typed errors:
  - an unsupported frame gives an empty Mat and is closed silently;
  - a bad interleaving distance is caught only by a Kotlin `assert`, which needs JVM assertions on;
  - nothing checks that the sizes are even or nonzero.
- I420Pack.PackedRowAt: states the packed positions with `RowOffset` (repeated addition) rather than products. `RowOffsetIsProduct` and `SizesAreProducts` give the product forms `width * height + i * (width / 2) + j` and `i * chromaRowStride + j`.
- I420Pack.BulkMatchesRowByRow, I420Pack.PaddedEqualsUnpadded, Analyzer.PaddedFrameAnalyzesAsUnpadded: stated for even width and height only. The unpadded path reads `width * height / 4` bytes per chroma plane (lines 269-271) where the padded path copies `(height / 2) * (width / 2)`, so for odd sizes the code itself makes padding removal disagree with the bulk path. `OddWidthPaddingChangesPacking` shows a 3×4 frame whose padded and unpadded forms pack differently, and `OddHeightTightThrows` a 4×3 unpadded frame that throws IndexOutOfBounds on V's bulk read while its padded form packs.
