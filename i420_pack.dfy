/** The planar branch of yuvToRgba: the Y, U and V planes of an I420 frame are
    packed into one byte array of width * (height + height / 2) bytes, Y first,
    then U, then V, dropping any padding at the end of the chroma rows.

    The specification is given on values (PackedI420 and the functions below it),
    and PackI420 fills the array in place the way the analyzer does: one bulk read
    for Y, then either one bulk read per chroma plane (no row padding) or a
    row-by-row copy that skips the padding between rows. */
module I420Pack {

  import opened Jvm

  /** Where row `i` starts when each row moves a cursor on by `step` bytes. The
      row-by-row copy never multiplies: it reads a row and skips the padding, so
      the position it reaches is this repeated addition. RowOffsetIsProduct ties
      it to `i * step`; the sizes below are written with it as well, which keeps
      the solver away from products of variables. */
  function RowOffset(i: nat, step: nat): nat
  {
    if i == 0 then 0 else RowOffset(i - 1, step) + step
  }

  lemma {:induction false} RowOffsetIsProduct(i: nat, step: nat)
    ensures RowOffset(i, step) == i * step
  {
    if i > 0 {
      RowOffsetIsProduct(i - 1, step);
    }
  }

  lemma {:induction false} RowOffsetMono(a: nat, b: nat, step: nat)
    requires a <= b
    ensures RowOffset(a, step) <= RowOffset(b, step)
    decreases b
  {
    if a < b {
      RowOffsetMono(a, b - 1, step);
    }
  }

  /** Kotlin `width * height`: the size of the Y section. */
  function LumaSize(width: nat, height: nat): nat
  {
    RowOffset(height, width)
  }

  /** Kotlin `width * (height + height / 2)`: the size of the packed array, which
      is also the height + height / 2 rows of `width` bytes of the I420 Mat. */
  function PackedSize(width: nat, height: nat): nat
  {
    RowOffset(height + height / 2, width)
  }

  lemma SizesAreProducts(width: nat, height: nat)
    ensures LumaSize(width, height) == width * height
    ensures PackedSize(width, height) == width * (height + height / 2)
  {
    RowOffsetIsProduct(height, width);
    RowOffsetIsProduct(height + height / 2, width);
  }

  lemma {:induction false} RowOffsetAddRows(a: nat, b: nat, step: nat)
    ensures RowOffset(a + b, step) == RowOffset(a, step) + RowOffset(b, step)
    decreases b
  {
    if b > 0 {
      RowOffsetAddRows(a, b - 1, step);
    }
  }

  lemma {:induction false} RowOffsetAddSteps(i: nat, s: nat, t: nat)
    ensures RowOffset(i, s + t) == RowOffset(i, s) + RowOffset(i, t)
  {
    if i > 0 {
      RowOffsetAddSteps(i - 1, s, t);
    }
  }

  /** The Y section and the two row-by-row chroma sections fit in the packed array,
      and fill it exactly when the width is even. */
  lemma SectionsFit(width: nat, height: nat)
    ensures LumaSize(width, height) + 2 * RowOffset(height / 2, width / 2) <= PackedSize(width, height)
    ensures width % 2 == 0 ==> LumaSize(width, height) + 2 * RowOffset(height / 2, width / 2) == PackedSize(width, height)
  {
    var h2, w2 := height / 2, width / 2;
    RowOffsetAddRows(height, h2, width);
    RowOffsetAddSteps(h2, w2, w2 + width % 2);
    RowOffsetAddSteps(h2, w2, width % 2);
    if width % 2 == 0 {
      RowOffsetIsProduct(h2, 0);
    }
  }

  /** SectionsFit in Kotlin's products: for an even width the packed array of
      width * (height + height / 2) bytes is exactly the Y section and two chroma
      sections of (height / 2) * (width / 2) bytes. */
  lemma EvenWidthSectionSizes(width: nat, height: nat)
    requires width % 2 == 0
    ensures width * (height + height / 2) == width * height + 2 * ((height / 2) * (width / 2))
  {
  }

  /** Overwriting the start of a zero-filled tail. */
  lemma WriteIntoZeros(before: seq<byte>, prefix: seq<byte>, piece: seq<byte>, m: nat)
    requires before == prefix + Zeros(m) && |piece| <= m
    ensures before[..|prefix|] + piece + before[|prefix| + |piece|..] == prefix + piece + Zeros(m - |piece|)
  {
    assert before[|prefix| + |piece|..] == Zeros(m - |piece|);
  }

  // ---------------------------------------------------------------------------
  // Row-by-row copy of one chroma plane

  /** A plane of `len` bytes holds `rows` rows of `rowWidth` bytes at `stride`:
      no trailing padding is needed after the last row. */
  predicate ChromaFits(len: nat, stride: nat, rows: nat, rowWidth: nat)
  {
    rows == 0 || RowOffset(rows - 1, stride) + rowWidth <= len
  }

  /** The logical content of a chroma plane: `rows` rows of `rowWidth` bytes, row
      `i` starting at byte RowOffset(i, stride) of the plane's buffer. */
  function ChromaRows(buf: seq<byte>, stride: nat, rows: nat, rowWidth: nat): (r: seq<byte>)
    requires ChromaFits(|buf|, stride, rows, rowWidth)
    ensures |r| == RowOffset(rows, rowWidth)
    decreases rows
  {
    if rows == 0 then []
    else ChromaRows(buf, stride, rows - 1, rowWidth) + buf[RowOffset(rows - 1, stride) .. RowOffset(rows - 1, stride) + rowWidth]
  }

  /** Where the row-by-row copy leaves the read position: just after the last row. */
  function ReadEnd(stride: nat, rows: nat, rowWidth: nat): nat
  {
    if rows == 0 then 0 else RowOffset(rows - 1, stride) + rowWidth
  }

  /** The first exception the row-by-row copy of a `len`-byte plane throws from
      row `i` on, or None. Row `i` is read at its row offset; between two rows
      (never after the last one) the position is moved on by the padding, which
      lands on the next row's offset. */
  function RowCopyFault(len: nat, stride: nat, rows: nat, rowWidth: nat, i: nat): (fault: Option<JavaException>)
    requires i <= rows
    ensures fault.Some? ==> fault.value == BufferUnderflow || fault.value == IllegalArgument
    decreases rows - i
  {
    if i == rows then None
    else if RowOffset(i, stride) + rowWidth > len then Some(BufferUnderflow)
    else if i < rows - 1 && RowOffset(i + 1, stride) > len then Some(IllegalArgument)
    else RowCopyFault(len, stride, rows, rowWidth, i + 1)
  }

  lemma {:induction false} RowCopyFaultFreeFrom(len: nat, stride: nat, rows: nat, rowWidth: nat, i: nat)
    requires i <= rows
    ensures RowCopyFault(len, stride, rows, rowWidth, i).None? <==> i == rows || ChromaFits(len, stride, rows, rowWidth)
    decreases rows - i
  {
    if i < rows {
      RowOffsetMono(i, rows - 1, stride);
      if RowOffset(i, stride) + rowWidth > len {
      } else if i < rows - 1 && RowOffset(i + 1, stride) > len {
        RowOffsetMono(i + 1, rows - 1, stride);
      } else {
        RowCopyFaultFreeFrom(len, stride, rows, rowWidth, i + 1);
      }
    }
  }

  /** Because padding is skipped only between rows, a chroma plane needs exactly
      (rows - 1) * stride + rowWidth bytes: the copy throws iff it has fewer. */
  lemma RowCopyFaultFree(len: nat, stride: nat, rows: nat, rowWidth: nat)
    ensures RowCopyFault(len, stride, rows, rowWidth, 0).None? <==> ChromaFits(len, stride, rows, rowWidth)
    ensures ChromaFits(len, stride, rows, rowWidth) <==> rows == 0 || (rows - 1) * stride + rowWidth <= len
  {
    RowCopyFaultFreeFrom(len, stride, rows, rowWidth, 0);
    if rows > 0 {
      RowOffsetIsProduct(rows - 1, stride);
    }
  }

  /** With no padding (stride == rowWidth) the position is never moved past the
      limit, so the only possible failure is an underflow, exactly when the plane
      holds fewer than rows * rowWidth bytes. */
  lemma {:induction false} TightRowCopyFault(len: nat, rows: nat, rowWidth: nat, i: nat)
    requires i <= rows
    ensures RowCopyFault(len, rowWidth, rows, rowWidth, i) ==
              if i == rows || RowOffset(rows, rowWidth) <= len then None else Some(BufferUnderflow)
    decreases rows - i
  {
    if i < rows {
      RowOffsetMono(i + 1, rows, rowWidth);
      if RowOffset(i, rowWidth) + rowWidth <= len {
        TightRowCopyFault(len, rows, rowWidth, i + 1);
      }
    }
  }

  /** Byte `j` of row `i` of the logical content comes from the plane's byte
      RowOffset(i, stride) + j. */
  lemma {:induction false} ChromaRowsAt(buf: seq<byte>, stride: nat, rows: nat, rowWidth: nat, i: nat, j: nat)
    requires ChromaFits(|buf|, stride, rows, rowWidth)
    requires i < rows && j < rowWidth
    ensures RowOffset(i, rowWidth) + j < RowOffset(rows, rowWidth) && RowOffset(i, stride) + j < |buf|
    ensures ChromaRows(buf, stride, rows, rowWidth)[RowOffset(i, rowWidth) + j] == buf[RowOffset(i, stride) + j]
    decreases rows
  {
    RowOffsetMono(i + 1, rows, rowWidth);
    RowOffsetMono(i, rows - 1, stride);
    if i < rows - 1 {
      RowOffsetMono(rows - 2, rows - 1, stride);
      ChromaRowsAt(buf, stride, rows - 1, rowWidth, i, j);
    }
  }

  /** Rows laid out back to back are just a prefix of the buffer. */
  lemma {:induction false} TightRowsArePrefix(buf: seq<byte>, rows: nat, rowWidth: nat)
    requires RowOffset(rows, rowWidth) <= |buf|
    ensures ChromaFits(|buf|, rowWidth, rows, rowWidth)
    ensures ChromaRows(buf, rowWidth, rows, rowWidth) == buf[..RowOffset(rows, rowWidth)]
    decreases rows
  {
    if rows > 0 {
      var end := RowOffset(rows, rowWidth);
      var start := RowOffset(rows - 1, rowWidth);
      TightRowsArePrefix(buf, rows - 1, rowWidth);
      assert buf[..end] == buf[..start] + buf[start .. end];
    }
  }

  /** The copy reads nothing at or beyond ReadEnd: two planes that agree on their
      first `n` bytes, n at least ReadEnd, have the same logical content, whatever
      follows (padding after the last row is neither needed nor read). */
  lemma {:induction false} ChromaRowsReadOnlyBound(buf: seq<byte>, other: seq<byte>, stride: nat, rows: nat, rowWidth: nat, n: nat)
    requires ReadEnd(stride, rows, rowWidth) <= n <= |buf| && n <= |other|
    requires buf[..n] == other[..n]
    ensures ChromaFits(|buf|, stride, rows, rowWidth) && ChromaFits(|other|, stride, rows, rowWidth)
    ensures ChromaRows(buf, stride, rows, rowWidth) == ChromaRows(other, stride, rows, rowWidth)
    decreases rows
  {
    if rows > 0 {
      var start := RowOffset(rows - 1, stride);
      ChromaRowsReadOnlyBound(buf, other, stride, rows - 1, rowWidth, n);
      forall k | start <= k < start + rowWidth
        ensures buf[k] == other[k]
      {
        assert buf[k] == buf[..n][k];
        assert other[k] == other[..n][k];
      }
      assert buf[start .. start + rowWidth] == other[start .. start + rowWidth];
    }
  }

  // ---------------------------------------------------------------------------
  // The packed buffer

  /** The chroma part of the packed array when the row padding is zero: U and V
      are each read in one go, `quarter` (Kotlin `width * height / 4`) bytes apiece,
      into the `room` bytes after the Y section. A read throws when the array has
      no room left for it (which odd sizes can cause) or its plane is too short. */
  function BulkChroma(room: nat, quarter: nat, u: seq<byte>, v: seq<byte>): (r: Result<seq<byte>>)
    ensures r.Ok? ==> |r.value| == room
    ensures r.Err? ==> FromByteBuffer(r.error)
  {
    if quarter > room then Err(IndexOutOfBounds)
    else if |u| < quarter then Err(BufferUnderflow)
    else if 2 * quarter > room then Err(IndexOutOfBounds)
    else if |v| < quarter then Err(BufferUnderflow)
    else Ok(u[..quarter] + v[..quarter] + Zeros(room - 2 * quarter))
  }

  /** The chroma part of the packed array when the row padding is not zero:
      `rows` rows of `rowWidth` bytes from U, then the same from V, both at the
      row stride of plane 1, and zeros in whatever room is left. */
  function RowChroma(room: nat, rows: nat, rowWidth: nat, u: seq<byte>, v: seq<byte>, stride: nat): (r: Result<seq<byte>>)
    requires 2 * RowOffset(rows, rowWidth) <= room
    ensures r.Ok? ==> |r.value| == room
    ensures r.Err? ==> r.error == BufferUnderflow || r.error == IllegalArgument
  {
    match RowCopyFault(|u|, stride, rows, rowWidth, 0)
    case Some(e) => Err(e)
    case None =>
      match RowCopyFault(|v|, stride, rows, rowWidth, 0)
      case Some(e) => Err(e)
      case None =>
        RowCopyFaultFreeFrom(|u|, stride, rows, rowWidth, 0);
        RowCopyFaultFreeFrom(|v|, stride, rows, rowWidth, 0);
        Ok(ChromaRows(u, stride, rows, rowWidth) + ChromaRows(v, stride, rows, rowWidth)
           + Zeros(room - 2 * RowOffset(rows, rowWidth)))
  }

  /** The chroma part of the packed array, chosen by the padding of plane 1's rows. */
  function PackedChroma(width: nat, height: nat, u: seq<byte>, v: seq<byte>, chromaRowStride: nat): (r: Result<seq<byte>>)
    ensures r.Ok? ==> LumaSize(width, height) + |r.value| == PackedSize(width, height)
    ensures r.Err? ==> FromByteBuffer(r.error)
  {
    SectionsFit(width, height);
    var room := PackedSize(width, height) - LumaSize(width, height);
    if chromaRowStride - width / 2 == 0 then BulkChroma(room, LumaSize(width, height) / 4, u, v)
    else RowChroma(room, height / 2, width / 2, u, v, chromaRowStride)
  }

  /** What the planar branch leaves in `yuvBytes`, or the exception it throws.
      The Y plane is read first (width * height bytes), so a short Y plane throws
      before anything else. */
  function PackedI420(width: nat, height: nat, y: seq<byte>, u: seq<byte>, v: seq<byte>, chromaRowStride: nat): (r: Result<seq<byte>>)
    ensures r.Ok? ==> |r.value| == PackedSize(width, height)
    ensures r.Err? ==> FromByteBuffer(r.error)
  {
    if |y| < LumaSize(width, height) then Err(BufferUnderflow)
    else
      match PackedChroma(width, height, u, v, chromaRowStride)
      case Err(e) => Err(e)
      case Ok(chroma) => Ok(y[..LumaSize(width, height)] + chroma)
  }

  /** How far each chroma buffer's position has moved once the branch succeeds. */
  function ChromaReadEnd(width: nat, height: nat, chromaRowStride: nat): nat
  {
    if chromaRowStride - width / 2 == 0 then LumaSize(width, height) / 4
    else ReadEnd(chromaRowStride, height / 2, width / 2)
  }

  /** In Kotlin's terms: a quarter of width * height after the bulk reads, and the
      end of the last chroma row, (height / 2 - 1) * chromaRowStride + width / 2,
      after the row-by-row copy. */
  lemma ChromaReadEndValue(width: nat, height: nat, chromaRowStride: nat)
    ensures ChromaReadEnd(width, height, chromaRowStride) ==
              if chromaRowStride - width / 2 == 0 then width * height / 4
              else if height / 2 == 0 then 0
              else (height / 2 - 1) * chromaRowStride + width / 2
  {
    SizesAreProducts(width, height);
    if height / 2 > 0 {
      RowOffsetIsProduct(height / 2 - 1, chromaRowStride);
    }
  }

  /** The row-by-row chroma part exists exactly when neither plane's copy
      throws, and is then the two planes' rows followed by zeros. */
  lemma RowChromaValue(room: nat, rows: nat, rowWidth: nat, u: seq<byte>, v: seq<byte>, stride: nat)
    requires 2 * RowOffset(rows, rowWidth) <= room
    ensures RowChroma(room, rows, rowWidth, u, v, stride).Ok? <==>
              RowCopyFault(|u|, stride, rows, rowWidth, 0).None? && RowCopyFault(|v|, stride, rows, rowWidth, 0).None?
    ensures RowChroma(room, rows, rowWidth, u, v, stride).Ok? ==>
              ChromaFits(|u|, stride, rows, rowWidth) && ChromaFits(|v|, stride, rows, rowWidth) &&
              RowChroma(room, rows, rowWidth, u, v, stride).value ==
                ChromaRows(u, stride, rows, rowWidth) + ChromaRows(v, stride, rows, rowWidth) + Zeros(room - 2 * RowOffset(rows, rowWidth))
  {
    RowCopyFaultFreeFrom(|u|, stride, rows, rowWidth, 0);
    RowCopyFaultFreeFrom(|v|, stride, rows, rowWidth, 0);
  }

  /** The packed array is the Y section followed by the chroma part. */
  lemma PackedSections(width: nat, height: nat, y: seq<byte>, u: seq<byte>, v: seq<byte>, chromaRowStride: nat)
    requires PackedI420(width, height, y, u, v, chromaRowStride).Ok?
    ensures LumaSize(width, height) <= |y| && PackedChroma(width, height, u, v, chromaRowStride).Ok?
    ensures PackedI420(width, height, y, u, v, chromaRowStride).value ==
              y[..LumaSize(width, height)] + PackedChroma(width, height, u, v, chromaRowStride).value
  {
  }

  /** Once the Y section has been read, the packed array is decided by the chroma part. */
  lemma PackedFromChroma(width: nat, height: nat, y: seq<byte>, u: seq<byte>, v: seq<byte>, chromaRowStride: nat)
    requires LumaSize(width, height) <= |y|
    ensures PackedChroma(width, height, u, v, chromaRowStride).Err? ==>
              PackedI420(width, height, y, u, v, chromaRowStride) == Err(PackedChroma(width, height, u, v, chromaRowStride).error)
    ensures PackedChroma(width, height, u, v, chromaRowStride).Ok? ==>
              PackedI420(width, height, y, u, v, chromaRowStride) ==
                Ok(y[..LumaSize(width, height)] + PackedChroma(width, height, u, v, chromaRowStride).value)
  {
  }

  /** The Y section of the packed buffer, its first LumaSize(width, height) =
      width * height bytes, is the start of plane 0. */
  lemma PackedLuma(width: nat, height: nat, y: seq<byte>, u: seq<byte>, v: seq<byte>, chromaRowStride: nat, p: seq<byte>)
    requires PackedI420(width, height, y, u, v, chromaRowStride) == Ok(p)
    ensures LumaSize(width, height) <= |y| && LumaSize(width, height) <= |p|
    ensures p[..LumaSize(width, height)] == y[..LumaSize(width, height)]
  {
    var lumaLen := LumaSize(width, height);
    PackedSections(width, height, y, u, v, chromaRowStride);
    var chroma := PackedChroma(width, height, u, v, chromaRowStride).value;
    assert (y[..lumaLen] + chroma)[..lumaLen] == y[..lumaLen];
  }

  /** With row padding, the packed array is the Y section followed by the
      row-by-row chroma part. */
  lemma PackedRowSections(width: nat, height: nat, y: seq<byte>, u: seq<byte>, v: seq<byte>, chromaRowStride: nat, p: seq<byte>)
    requires PackedI420(width, height, y, u, v, chromaRowStride) == Ok(p)
    requires chromaRowStride != width / 2
    ensures LumaSize(width, height) <= |y|
    ensures 2 * RowOffset(height / 2, width / 2) <= PackedSize(width, height) - LumaSize(width, height)
    ensures var c := RowChroma(PackedSize(width, height) - LumaSize(width, height), height / 2, width / 2, u, v, chromaRowStride);
            c.Ok? && p == y[..LumaSize(width, height)] + c.value
  {
    SectionsFit(width, height);
    PackedSections(width, height, y, u, v, chromaRowStride);
  }

  /** For even frame sizes the two chroma branches agree: the single bulk read
      gives the same bytes (or the same exception) as copying row by row at a
      stride equal to the row width. */
  lemma BulkMatchesRowByRow(width: nat, height: nat, u: seq<byte>, v: seq<byte>)
    requires width % 2 == 0 && height % 2 == 0
    ensures var room := PackedSize(width, height) - LumaSize(width, height);
            (SectionsFit(width, height);
             BulkChroma(room, LumaSize(width, height) / 4, u, v) == RowChroma(room, height / 2, width / 2, u, v, width / 2))
  {
    var rows, rowWidth := height / 2, width / 2;
    var q := LumaSize(width, height) / 4;
    SectionsFit(width, height);
    SizesAreProducts(width, height);
    RowOffsetIsProduct(rows, rowWidth);
    assert q == RowOffset(rows, rowWidth) by {
      assert width * height == 4 * (rowWidth * rows);
    }
    TightRowCopyFault(|u|, rows, rowWidth, 0);
    TightRowCopyFault(|v|, rows, rowWidth, 0);
    if q <= |u| && q <= |v| {
      TightRowsArePrefix(u, rows, rowWidth);
      TightRowsArePrefix(v, rows, rowWidth);
    }
  }

  /** Padding removal is correct: a frame whose chroma rows are padded and a frame
      whose chroma planes hold the same rows back to back (stride width / 2) pack
      to the same buffer, for even frame sizes. */
  lemma PaddedEqualsUnpadded(width: nat, height: nat, y: seq<byte>, u: seq<byte>, v: seq<byte>, chromaRowStride: nat,
                             uTight: seq<byte>, vTight: seq<byte>)
    requires width % 2 == 0 && height % 2 == 0
    requires width * height <= |y|
    requires ChromaFits(|u|, chromaRowStride, height / 2, width / 2)
    requires ChromaFits(|v|, chromaRowStride, height / 2, width / 2)
    requires (height / 2) * (width / 2) <= |uTight| && (height / 2) * (width / 2) <= |vTight|
    requires uTight[..(height / 2) * (width / 2)] == ChromaRows(u, chromaRowStride, height / 2, width / 2)
    requires vTight[..(height / 2) * (width / 2)] == ChromaRows(v, chromaRowStride, height / 2, width / 2)
    ensures PackedI420(width, height, y, u, v, chromaRowStride).Ok?
    ensures PackedI420(width, height, y, u, v, chromaRowStride) == PackedI420(width, height, y, uTight, vTight, width / 2)
  {
    var rows, rowWidth := height / 2, width / 2;
    SizesAreProducts(width, height);
    RowOffsetIsProduct(rows, rowWidth);
    SectionsFit(width, height);
    var room := PackedSize(width, height) - LumaSize(width, height);
    // the padded frame: no fault, so its chroma rows followed by zeros
    RowCopyFaultFreeFrom(|u|, chromaRowStride, rows, rowWidth, 0);
    RowCopyFaultFreeFrom(|v|, chromaRowStride, rows, rowWidth, 0);
    var padded := RowChroma(room, rows, rowWidth, u, v, chromaRowStride);
    if chromaRowStride == rowWidth {
      BulkMatchesRowByRow(width, height, u, v);
    }
    assert PackedChroma(width, height, u, v, chromaRowStride) == padded;
    // the unpadded frame: its bulk reads take exactly those rows
    BulkMatchesRowByRow(width, height, uTight, vTight);
    TightRowCopyFault(|uTight|, rows, rowWidth, 0);
    TightRowCopyFault(|vTight|, rows, rowWidth, 0);
    TightRowsArePrefix(uTight, rows, rowWidth);
    TightRowsArePrefix(vTight, rows, rowWidth);
    assert PackedChroma(width, height, uTight, vTight, rowWidth) == RowChroma(room, rows, rowWidth, uTight, vTight, rowWidth);
    assert RowChroma(room, rows, rowWidth, uTight, vTight, rowWidth) == padded;
  }

  /** The even sizes above are needed: the bulk reads take `width * height / 4`
      bytes per plane, not (height / 2) * (width / 2). In a 3x4 frame the rows are
      one byte wide, so a padded frame (row stride 2) packs its two U rows and two
      V rows and leaves two zeros, while the frame holding the same rows back to
      back (row stride 1) takes three bytes from each plane. */
  lemma OddWidthPaddingChangesPacking(y: seq<byte>)
    requires LumaSize(3, 4) <= |y|
    ensures var u, v, uTight, vTight := [1, 9, 2], [4, 9, 5], [1, 2, 3], [4, 5, 6];
            ChromaRows(u, 2, 2, 1) == uTight[..2] && ChromaRows(v, 2, 2, 1) == vTight[..2] &&
            PackedI420(3, 4, y, u, v, 2) == Ok(y[..12] + [1, 2, 4, 5, 0, 0]) &&
            PackedI420(3, 4, y, uTight, vTight, 1) == Ok(y[..12] + [1, 2, 3, 4, 5, 6])
  {
    var u, v, uTight, vTight: seq<byte> := [1, 9, 2], [4, 9, 5], [1, 2, 3], [4, 5, 6];
    assert LumaSize(3, 4) == 12 && PackedSize(3, 4) == 18;
    PaddedChroma3x4(u, v);
    TightChroma3x4(uTight, vTight);
  }

  /** The padded 3x4 chroma planes of OddWidthPaddingChangesPacking: their rows,
      and the row-by-row chroma part they give. */
  lemma PaddedChroma3x4(u: seq<byte>, v: seq<byte>)
    requires u == [1, 9, 2] && v == [4, 9, 5]
    ensures ChromaFits(|u|, 2, 2, 1) && ChromaRows(u, 2, 2, 1) == [1, 2]
    ensures ChromaFits(|v|, 2, 2, 1) && ChromaRows(v, 2, 2, 1) == [4, 5]
    ensures PackedChroma(3, 4, u, v, 2) == Ok([1, 2, 4, 5, 0, 0])
  {
    assert RowOffset(1, 2) == 2 && RowOffset(2, 1) == 2;
    assert ChromaRows(u, 2, 2, 1) == [1, 2] by {
      assert ChromaRows(u, 2, 1, 1) == [1];
    }
    assert ChromaRows(v, 2, 2, 1) == [4, 5] by {
      assert ChromaRows(v, 2, 1, 1) == [4];
    }
    assert RowCopyFault(3, 2, 2, 1, 0).None? by {
      RowCopyFaultFree(3, 2, 2, 1);
    }
    assert Zeros(2) == [0, 0];
    assert [1, 2] + [4, 5] + Zeros(2) == [1, 2, 4, 5, 0, 0];
    assert RowChroma(6, 2, 1, u, v, 2) == Ok([1, 2, 4, 5, 0, 0]);
    assert LumaSize(3, 4) == 12 && PackedSize(3, 4) == 18;
  }

  /** The unpadded 3x4 chroma planes of OddWidthPaddingChangesPacking: the bulk
      reads take all three bytes of each. */
  lemma TightChroma3x4(uTight: seq<byte>, vTight: seq<byte>)
    requires uTight == [1, 2, 3] && vTight == [4, 5, 6]
    ensures PackedChroma(3, 4, uTight, vTight, 1) == Ok([1, 2, 3, 4, 5, 6])
  {
    assert LumaSize(3, 4) == 12 && PackedSize(3, 4) == 18;
    assert uTight[..3] == uTight && vTight[..3] == vTight && Zeros(0) == [];
    assert uTight + vTight + Zeros(0) == [1, 2, 3, 4, 5, 6];
    assert BulkChroma(6, 3, uTight, vTight) == Ok([1, 2, 3, 4, 5, 6]);
  }

  /** In a 4x3 frame the bulk reads ask for 2 * (12 / 4) bytes where the packed
      array has room for 4 after Y, so the unpadded frame throws on V's read,
      while a padded frame with the same rows (row stride 3) packs. */
  lemma OddHeightTightThrows(y: seq<byte>)
    requires LumaSize(4, 3) <= |y|
    ensures var u, v, uTight, vTight := [1, 2, 9], [4, 5, 9], [1, 2, 3], [4, 5, 6];
            ChromaRows(u, 3, 1, 2) == uTight[..2] && ChromaRows(v, 3, 1, 2) == vTight[..2] &&
            PackedI420(4, 3, y, u, v, 3) == Ok(y[..12] + [1, 2, 4, 5]) &&
            PackedI420(4, 3, y, uTight, vTight, 2) == Err(IndexOutOfBounds)
  {
    var u, v, uTight, vTight: seq<byte> := [1, 2, 9], [4, 5, 9], [1, 2, 3], [4, 5, 6];
    assert LumaSize(4, 3) == 12 && PackedSize(4, 3) == 16;
    assert ChromaRows(u, 3, 1, 2) == [1, 2] && ChromaRows(v, 3, 1, 2) == [4, 5];
    assert RowOffset(1, 2) == 2 && Zeros(0) == [];
    assert RowCopyFault(3, 3, 1, 2, 0).None?;
    assert [1, 2] + [4, 5] + Zeros(0) == [1, 2, 4, 5];
    assert RowChroma(4, 1, 2, u, v, 3) == Ok([1, 2, 4, 5]);
    assert PackedChroma(4, 3, u, v, 3) == Ok([1, 2, 4, 5]);
  }

  /** Regrouping a prefix followed by three sections. */
  lemma Regroup(p: seq<byte>, head: seq<byte>, c: seq<byte>, b: seq<byte>, cc: seq<byte>, d: seq<byte>)
    requires p == head + c && c == b + cc + d
    ensures p == head + b + (cc + d) && p == head + b + cc + d
  {
  }

  /** Byte `j` of row `i` of a plane's logical content, placed after `base`
      bytes of something else, sits at base + RowOffset(i, rowWidth) + j. */
  lemma RowInSection(p: seq<byte>, head: seq<byte>, section: seq<byte>, tail: seq<byte>, buf: seq<byte>,
                     stride: nat, rows: nat, rowWidth: nat, i: nat, j: nat, base: nat)
    requires ChromaFits(|buf|, stride, rows, rowWidth) && i < rows && j < rowWidth
    requires section == ChromaRows(buf, stride, rows, rowWidth)
    requires p == head + section + tail && base == |head|
    ensures base + RowOffset(i, rowWidth) + j < |p| && RowOffset(i, stride) + j < |buf|
    ensures p[base + RowOffset(i, rowWidth) + j] == buf[RowOffset(i, stride) + j]
  {
    ChromaRowsAt(buf, stride, rows, rowWidth, i, j);
    assert p[base + RowOffset(i, rowWidth) + j] == section[RowOffset(i, rowWidth) + j];
  }

  /** With row padding, the packed array is the Y section, the rows of U, the
      rows of V and zeros, in that order. */
  lemma PackedRowParts(width: nat, height: nat, y: seq<byte>, u: seq<byte>, v: seq<byte>, chromaRowStride: nat, p: seq<byte>)
    requires PackedI420(width, height, y, u, v, chromaRowStride) == Ok(p)
    requires chromaRowStride != width / 2
    ensures LumaSize(width, height) <= |y|
    ensures ChromaFits(|u|, chromaRowStride, height / 2, width / 2) && ChromaFits(|v|, chromaRowStride, height / 2, width / 2)
    ensures var uRows := ChromaRows(u, chromaRowStride, height / 2, width / 2);
            var vRows := ChromaRows(v, chromaRowStride, height / 2, width / 2);
            var z := Zeros(PackedSize(width, height) - LumaSize(width, height) - 2 * RowOffset(height / 2, width / 2));
            p == y[..LumaSize(width, height)] + uRows + (vRows + z) &&
            p == y[..LumaSize(width, height)] + uRows + vRows + z
  {
    var rows, rowWidth := height / 2, width / 2;
    var lumaLen := LumaSize(width, height);
    PackedRowSections(width, height, y, u, v, chromaRowStride, p);
    var room := PackedSize(width, height) - lumaLen;
    RowChromaValue(room, rows, rowWidth, u, v, chromaRowStride);
    Regroup(p, y[..lumaLen], RowChroma(room, rows, rowWidth, u, v, chromaRowStride).value,
            ChromaRows(u, chromaRowStride, rows, rowWidth), ChromaRows(v, chromaRowStride, rows, rowWidth),
            Zeros(room - 2 * RowOffset(rows, rowWidth)));
  }

  /** Where the row-by-row copy puts each chroma byte: byte `j` of row `i` of U,
      read at RowOffset(i, chromaRowStride) + j of plane 1, lands at
      LumaSize + RowOffset(i, width / 2) + j; the same byte of V, read at the same
      offset of plane 2, lands (height / 2) rows of width / 2 further on. With
      RowOffsetIsProduct and SizesAreProducts these are width * height +
      i * (width / 2) + j and width * height + (height / 2) * (width / 2) +
      i * (width / 2) + j, read from i * chromaRowStride + j. */
  lemma PackedRowAt(width: nat, height: nat, y: seq<byte>, u: seq<byte>, v: seq<byte>, chromaRowStride: nat,
                    p: seq<byte>, i: nat, j: nat)
    requires PackedI420(width, height, y, u, v, chromaRowStride) == Ok(p)
    requires chromaRowStride != width / 2
    requires i < height / 2 && j < width / 2
    ensures var from := RowOffset(i, chromaRowStride) + j;
            var uAt := LumaSize(width, height) + RowOffset(i, width / 2) + j;
            var vAt := LumaSize(width, height) + RowOffset(height / 2, width / 2) + RowOffset(i, width / 2) + j;
            from < |u| && from < |v| && uAt < |p| && vAt < |p| && p[uAt] == u[from] && p[vAt] == v[from]
  {
    var rows, rowWidth := height / 2, width / 2;
    var lumaLen := LumaSize(width, height);
    PackedRowParts(width, height, y, u, v, chromaRowStride, p);
    var uRows := ChromaRows(u, chromaRowStride, rows, rowWidth);
    var vRows := ChromaRows(v, chromaRowStride, rows, rowWidth);
    var z := Zeros(PackedSize(width, height) - lumaLen - 2 * RowOffset(rows, rowWidth));
    RowInSection(p, y[..lumaLen], uRows, vRows + z, u, chromaRowStride, rows, rowWidth, i, j, lumaLen);
    RowInSection(p, y[..lumaLen] + uRows, vRows, z, v, chromaRowStride, rows, rowWidth, i, j, lumaLen + RowOffset(rows, rowWidth));
  }

  // ---------------------------------------------------------------------------
  // The imperative branch

  /** Row `i` of the copy, read at its row offset `pos`: it throws what the
      reads and the position move of that row throw, or else the copy goes on. */
  lemma RowStep(len: nat, stride: nat, rows: nat, rowWidth: nat, i: nat, pos: nat)
    requires i < rows && pos == RowOffset(i, stride) && pos <= len
    ensures RowCopyFault(len, stride, rows, rowWidth, i) ==
              if rowWidth > len - pos then Some(BufferUnderflow)
              else if i != rows - 1 && !(0 <= pos + rowWidth + (stride - rowWidth) <= len) then Some(IllegalArgument)
              else RowCopyFault(len, stride, rows, rowWidth, i + 1)
    ensures pos + rowWidth + (stride - rowWidth) == RowOffset(i + 1, stride)
    ensures i == rows - 1 ==> pos + rowWidth == ReadEnd(stride, rows, rowWidth)
  {
  }

  /** A prefix followed by three sections: slicing recovers the prefix and the rest. */
  lemma SplitAt(p: seq<byte>, prefix: seq<byte>, b: seq<byte>, c: seq<byte>, d: seq<byte>)
    requires p == prefix + b + c + d
    ensures p[..|prefix|] == prefix && p[|prefix|..] == b + c + d
  {
    assert p == prefix + (b + c + d);
  }

  /** Overwriting the start of the tail `rest` of a sequence. */
  lemma Splice(head: seq<byte>, rest: seq<byte>, piece: seq<byte>, before: seq<byte>, after: seq<byte>)
    requires before == head + rest && |piece| <= |rest|
    requires after == before[..|head|] + piece + before[|head| + |piece|..]
    ensures after == head + piece + rest[|piece|..]
  {
    assert before[..|head|] == head;
    assert before[|head| + |piece|..] == rest[|piece|..];
  }

  /** One step of the row copy on the destination's contents: writing row `i`
      just after rows 0 .. i - 1 leaves rows 0 .. i there. */
  lemma AppendRow(orig: seq<byte>, offset: nat, bytes: seq<byte>, stride: nat, i: nat, rowWidth: nat,
                  before: seq<byte>, after: seq<byte>, at: nat, pos: nat)
    requires at == offset + RowOffset(i, rowWidth) && pos == RowOffset(i, stride)
    requires pos + rowWidth <= |bytes| && at + rowWidth <= |orig|
    requires before == orig[..offset] + ChromaRows(bytes, stride, i, rowWidth) + orig[at..]
    requires after == before[..at] + bytes[pos .. pos + rowWidth] + before[at + rowWidth..]
    ensures ChromaFits(|bytes|, stride, i + 1, rowWidth)
    ensures after == orig[..offset] + ChromaRows(bytes, stride, i + 1, rowWidth) + orig[offset + RowOffset(i + 1, rowWidth)..]
  {
    var head := orig[..offset] + ChromaRows(bytes, stride, i, rowWidth);
    var rest := orig[offset + RowOffset(i, rowWidth)..];
    var row := bytes[RowOffset(i, stride) .. RowOffset(i, stride) + rowWidth];
    Splice(head, rest, row, before, after);
    assert rest[|row|..] == orig[offset + RowOffset(i + 1, rowWidth)..];
    assert ChromaRows(bytes, stride, i + 1, rowWidth) == ChromaRows(bytes, stride, i, rowWidth) + row;
    assert head + row == orig[..offset] + ChromaRows(bytes, stride, i + 1, rowWidth);
  }

  /** The body of one of those loops: reads one row of `rowWidth` bytes into `dst`
      at `at`, then, unless this is the last row, moves the position on by `padding`. */
  method CopyRow(plane: ByteBuffer, dst: array<byte>, at: nat, rowWidth: nat, padding: int, lastRow: bool)
    returns (err: Option<JavaException>)
    requires plane.Valid()
    requires at + rowWidth <= dst.Length
    modifies plane, dst
    ensures plane.Valid()
    ensures err == if rowWidth > old(plane.Remaining()) then Some(BufferUnderflow)
                   else if !lastRow && !(0 <= old(plane.position) + rowWidth + padding <= |plane.bytes|) then Some(IllegalArgument)
                   else None
    ensures err.None? ==> plane.position == old(plane.position) + rowWidth + (if lastRow then 0 else padding)
    ensures err.None? ==> dst[..] == old(dst[..])[..at] + plane.bytes[old(plane.position) .. old(plane.position) + rowWidth]
                                     + old(dst[..])[at + rowWidth..]
  {
    err := plane.Get(dst, at, rowWidth);
    if err.Some? {
      return;
    }
    if !lastRow {
      err := plane.SetPosition(plane.position + padding);
    }
  }

  /** One iteration of either `for` loop: row `i` is copied after rows
      0 .. i - 1 of `dst`'s chroma section, or the copy throws the fault the
      specification places at row `i`. */
  method ReadRow(plane: ByteBuffer, dst: array<byte>, ghost orig: seq<byte>, offset: nat, rows: nat, rowWidth: nat,
                 stride: nat, i: nat, at: nat)
    returns (err: Option<JavaException>)
    requires plane.Valid() && i < rows && ChromaFits(|plane.bytes|, stride, i, rowWidth)
    requires plane.position == RowOffset(i, stride)
    requires at == offset + RowOffset(i, rowWidth) && at + rowWidth <= dst.Length == |orig|
    requires dst[..] == orig[..offset] + ChromaRows(plane.bytes, stride, i, rowWidth) + orig[at..]
    modifies plane, dst
    ensures plane.Valid()
    ensures err.Some? ==> err == RowCopyFault(|plane.bytes|, stride, rows, rowWidth, i)
    ensures err.None? ==> RowCopyFault(|plane.bytes|, stride, rows, rowWidth, i) == RowCopyFault(|plane.bytes|, stride, rows, rowWidth, i + 1)
    ensures err.None? ==> ChromaFits(|plane.bytes|, stride, i + 1, rowWidth) && at + rowWidth == offset + RowOffset(i + 1, rowWidth)
    ensures err.None? ==> plane.position == if i + 1 < rows then RowOffset(i + 1, stride) else ReadEnd(stride, rows, rowWidth)
    ensures err.None? ==> dst[..] == orig[..offset] + ChromaRows(plane.bytes, stride, i + 1, rowWidth) + orig[at + rowWidth..]
  {
    ghost var before, pos := dst[..], plane.position;
    RowStep(|plane.bytes|, stride, rows, rowWidth, i, pos);
    err := CopyRow(plane, dst, at, rowWidth, stride - rowWidth, i == rows - 1);
    if err.Some? {
      return;
    }
    AppendRow(orig, offset, plane.bytes, stride, i, rowWidth, before, dst[..], at, pos);
  }

  /** One of the two `for` loops of the padded branch: copies `rows` rows of
      `rowWidth` bytes from `plane` into `dst` at `offset`, moving the plane's
      position on by the padding `stride - rowWidth` between rows but not after
      the last one. */
  method CopyRows(plane: ByteBuffer, dst: array<byte>, offset: nat, rows: nat, rowWidth: nat, stride: nat)
    returns (newOffset: nat, err: Option<JavaException>)
    requires plane.Valid() && plane.position == 0
    requires offset + RowOffset(rows, rowWidth) <= dst.Length
    modifies plane, dst
    ensures plane.Valid()
    ensures err == RowCopyFault(|plane.bytes|, stride, rows, rowWidth, 0)
    ensures err.None? ==> ChromaFits(|plane.bytes|, stride, rows, rowWidth)
    ensures err.None? ==> newOffset == offset + RowOffset(rows, rowWidth)
    ensures err.None? ==> dst[..] == old(dst[..])[..offset] + ChromaRows(plane.bytes, stride, rows, rowWidth)
                                     + old(dst[..])[newOffset..]
    ensures err.None? ==> plane.position == ReadEnd(stride, rows, rowWidth)
  {
    ghost var len := |plane.bytes|;
    ghost var orig := dst[..];
    newOffset := offset;
    for i := 0 to rows
      invariant plane.Valid()
      invariant newOffset == offset + RowOffset(i, rowWidth) <= dst.Length
      invariant ChromaFits(len, stride, i, rowWidth)
      invariant plane.position == if i < rows then RowOffset(i, stride) else ReadEnd(stride, rows, rowWidth)
      invariant RowCopyFault(len, stride, rows, rowWidth, 0) == RowCopyFault(len, stride, rows, rowWidth, i)
      invariant dst[..] == orig[..offset] + ChromaRows(plane.bytes, stride, i, rowWidth) + orig[newOffset..]
    {
      RowOffsetMono(i + 1, rows, rowWidth);
      err := ReadRow(plane, dst, orig, offset, rows, rowWidth, stride, i, newOffset);
      if err.Some? {
        return;
      }
      newOffset := newOffset + rowWidth;
    }
    err := None;
  }

  /** One bulk read of `length` bytes from the start of `plane` into the
      zero-filled part of `dst` after `prefix`. */
  method ReadInto(plane: ByteBuffer, dst: array<byte>, offset: nat, length: nat, ghost prefix: seq<byte>)
    returns (err: Option<JavaException>)
    requires plane.Valid() && plane.position == 0
    requires |prefix| == offset <= dst.Length && dst[..] == prefix + Zeros(dst.Length - offset)
    modifies plane, dst
    ensures plane.Valid()
    ensures err == if length > dst.Length - offset then Some(IndexOutOfBounds)
                   else if length > |plane.bytes| then Some(BufferUnderflow)
                   else None
    ensures err.None? ==> plane.position == length
    ensures err.None? ==> dst[..] == prefix + plane.bytes[..length] + Zeros(dst.Length - offset - length)
  {
    ghost var before := dst[..];
    err := plane.Get(dst, offset, length);
    if err.Some? {
      return;
    }
    WriteIntoZeros(before, prefix, plane.bytes[..length], dst.Length - offset);
  }

  /** The chroma reads when the row padding is zero: `length` bytes of U, then
      `length` bytes of V, into the zero-filled part of `dst` after `offset`. */
  method CopyChromaBulk(uPlane: ByteBuffer, vPlane: ByteBuffer, dst: array<byte>, offset: nat, length: nat, ghost prefix: seq<byte>)
    returns (err: Option<JavaException>)
    requires uPlane.Valid() && vPlane.Valid() && uPlane != vPlane
    requires uPlane.position == 0 && vPlane.position == 0
    requires |prefix| == offset <= dst.Length && dst[..] == prefix + Zeros(dst.Length - offset)
    modifies uPlane, vPlane, dst
    ensures uPlane.Valid() && vPlane.Valid()
    ensures err.Some? ==> BulkChroma(dst.Length - offset, length, uPlane.bytes, vPlane.bytes) == Err(err.value)
    ensures err.None? ==> BulkChroma(dst.Length - offset, length, uPlane.bytes, vPlane.bytes) == Ok(dst[offset..])
    ensures err.None? ==> dst[..offset] == prefix
    ensures err.None? ==> uPlane.position == length && vPlane.position == length
  {
    ghost var m := dst.Length - offset;
    err := ReadInto(uPlane, dst, offset, length, prefix);
    if err.Some? {
      return;
    }
    ghost var uPart := uPlane.bytes[..length];
    err := ReadInto(vPlane, dst, offset + length, length, prefix + uPart);
    if err.Some? {
      return;
    }
    SplitAt(dst[..], prefix, uPart, vPlane.bytes[..length], Zeros(m - length - length));
  }

  /** The chroma loops when the row padding is not zero: `rows` rows of
      `rowWidth` bytes from U, then from V, each at row stride `stride`. */
  method CopyChromaRows(uPlane: ByteBuffer, vPlane: ByteBuffer, dst: array<byte>, offset: nat, rows: nat, rowWidth: nat,
                        stride: nat, ghost prefix: seq<byte>)
    returns (err: Option<JavaException>)
    requires uPlane.Valid() && vPlane.Valid() && uPlane != vPlane
    requires uPlane.position == 0 && vPlane.position == 0
    requires |prefix| == offset && offset + 2 * RowOffset(rows, rowWidth) <= dst.Length
    requires dst[..] == prefix + Zeros(dst.Length - offset)
    modifies uPlane, vPlane, dst
    ensures uPlane.Valid() && vPlane.Valid()
    ensures err.Some? ==> RowChroma(dst.Length - offset, rows, rowWidth, uPlane.bytes, vPlane.bytes, stride) == Err(err.value)
    ensures err.None? ==> RowChroma(dst.Length - offset, rows, rowWidth, uPlane.bytes, vPlane.bytes, stride) == Ok(dst[offset..])
    ensures err.None? ==> dst[..offset] == prefix
    ensures err.None? ==> uPlane.position == ReadEnd(stride, rows, rowWidth)
    ensures err.None? ==> vPlane.position == ReadEnd(stride, rows, rowWidth)
  {
    ghost var m := dst.Length - offset;
    ghost var before := dst[..];
    var next;
    next, err := CopyRows(uPlane, dst, offset, rows, rowWidth, stride);
    if err.Some? {
      return;
    }
    ghost var uRows := ChromaRows(uPlane.bytes, stride, rows, rowWidth);
    WriteIntoZeros(before, prefix, uRows, m);
    ghost var afterU := dst[..];
    next, err := CopyRows(vPlane, dst, next, rows, rowWidth, stride);
    if err.Some? {
      return;
    }
    ghost var vRows := ChromaRows(vPlane.bytes, stride, rows, rowWidth);
    WriteIntoZeros(afterU, prefix + uRows, vRows, m - |uRows|);
    RowChromaValue(m, rows, rowWidth, uPlane.bytes, vPlane.bytes, stride);
    SplitAt(dst[..], prefix, uRows, vRows, Zeros(m - |uRows| - |vRows|));
  }

  /** The chroma half of the planar branch: the bulk reads when plane 1's rows
      carry no padding, the two row loops otherwise. */
  method CopyChroma(width: nat, height: nat, uPlane: ByteBuffer, vPlane: ByteBuffer, chromaRowStride: nat,
                    dst: array<byte>, ghost prefix: seq<byte>)
    returns (err: Option<JavaException>)
    requires uPlane.Valid() && vPlane.Valid() && uPlane != vPlane
    requires uPlane.position == 0 && vPlane.position == 0
    requires |prefix| == LumaSize(width, height) <= dst.Length == PackedSize(width, height)
    requires dst[..] == prefix + Zeros(dst.Length - |prefix|)
    modifies uPlane, vPlane, dst
    ensures uPlane.Valid() && vPlane.Valid()
    ensures err.Some? ==> PackedChroma(width, height, uPlane.bytes, vPlane.bytes, chromaRowStride) == Err(err.value)
    ensures err.None? ==> PackedChroma(width, height, uPlane.bytes, vPlane.bytes, chromaRowStride) == Ok(dst[|prefix|..])
    ensures err.None? ==> dst[..|prefix|] == prefix
    ensures err.None? ==> uPlane.position == ChromaReadEnd(width, height, chromaRowStride)
    ensures err.None? ==> vPlane.position == ChromaReadEnd(width, height, chromaRowStride)
  {
    SectionsFit(width, height);
    var offset := LumaSize(width, height);
    var chromaRowPadding := chromaRowStride - width / 2;
    if chromaRowPadding == 0 {
      err := CopyChromaBulk(uPlane, vPlane, dst, offset, offset / 4, prefix);
    } else {
      err := CopyChromaRows(uPlane, vPlane, dst, offset, height / 2, width / 2, chromaRowStride, prefix);
    }
  }

  /** The planar branch of yuvToRgba up to the OpenCV call: allocates the packed
      array, reads Y in one go, then U and V in one of the two ways. */
  method PackI420(width: nat, height: nat, yPlane: ByteBuffer, uPlane: ByteBuffer, vPlane: ByteBuffer, chromaRowStride: nat)
    returns (r: Result<seq<byte>>)
    requires yPlane.Valid() && uPlane.Valid() && vPlane.Valid()
    requires yPlane.position == 0 && uPlane.position == 0 && vPlane.position == 0
    requires yPlane != uPlane && yPlane != vPlane && uPlane != vPlane
    modifies yPlane, uPlane, vPlane
    ensures yPlane.Valid() && uPlane.Valid() && vPlane.Valid()
    ensures r == PackedI420(width, height, yPlane.bytes, uPlane.bytes, vPlane.bytes, chromaRowStride)
    ensures r.Ok? ==> yPlane.position == LumaSize(width, height)
    ensures r.Ok? ==> uPlane.position == ChromaReadEnd(width, height, chromaRowStride)
    ensures r.Ok? ==> vPlane.position == ChromaReadEnd(width, height, chromaRowStride)
  {
    SectionsFit(width, height);
    ghost var y := yPlane.bytes;
    var yuvBytes := new byte[PackedSize(width, height)](_ => 0);
    var lumaLen := LumaSize(width, height);
    ghost var start := yuvBytes[..];
    assert start == [] + Zeros(yuvBytes.Length);
    var err := yPlane.Get(yuvBytes, 0, lumaLen);
    if err.Some? {
      return Err(err.value);
    }
    WriteIntoZeros(start, [], y[..lumaLen], yuvBytes.Length);
    assert [] + y[..lumaLen] == y[..lumaLen];
    err := CopyChroma(width, height, uPlane, vPlane, chromaRowStride, yuvBytes, y[..lumaLen]);
    PackedFromChroma(width, height, y, uPlane.bytes, vPlane.bytes, chromaRowStride);
    if err.Some? {
      return Err(err.value);
    }
    r := Ok(yuvBytes[..]);
    assert yuvBytes[..] == yuvBytes[..lumaLen] + yuvBytes[lumaLen..];
  }
}
