/** LightnessAnalyzer: yuvToRgba, which turns a camera frame into an RGBA Mat
    (through OpenCV for the interleaved layouts, through the packed I420 array
    otherwise), and analyze, which converts each frame to a gray bitmap, hands it
    to the listener and closes the frame. */
module Analyzer {

  import opened Jvm
  import opened Layout
  import opened I420Pack

  /** The OpenCV colour conversion codes the analyzer uses to make an RGBA Mat. */
  datatype RgbaConversion = FromNV12 | FromNV21 | FromI420

  /** An OpenCV Mat as far as the analyzer can see it. The colour kernels are not
      modelled: a converted Mat records how it was made, its size, and the bytes
      (or the Mat) it was made from. */
  datatype Mat =
    | EmptyMat                                                          // Mat()
    | Rgba(conversion: RgbaConversion, rows: nat, cols: nat, input: seq<seq<byte>>)
    | Gray(rows: nat, cols: nat, source: Mat)                           // COLOR_RGBA2GRAY

  /** An ARGB_8888 android.graphics.Bitmap filled by Utils.matToBitmap. */
  datatype Bitmap = Bitmap(width: nat, height: nat, pixels: Mat)

  /** One call of the OpencvListener. */
  datatype Frame = Frame(message: string, bitmap: Bitmap)

  /** What analyze does with one ImageProxy: the frames it hands to the listener,
      whether it reaches image.close(), and the exception that escapes it, if any. */
  datatype Analysis = Analysis(emitted: seq<Frame>, closed: bool, thrown: Option<JavaException>)

  /** The RGBA Mat yuvToRgba returns, or the exception it throws. An unsupported
      frame takes neither branch and leaves the Mat empty; the interleaved branch
      converts plane 0 with the chroma plane the classifier picks; the planar
      branch converts the packed I420 array, its padding taken from plane 1. */
  function YuvToRgbaSpec(image: Image, assertionsEnabled: bool): (r: Result<Mat>)
    ensures r == Ok(EmptyMat) <==> !IsSupported(image)
    ensures r.Ok? && r.value.Rgba? ==> r.value.rows == image.height && r.value.cols == image.width
    ensures r.Err? ==> IsSupported(image)
  {
    match Classify(image, assertionsEnabled)
    case Unsupported => Ok(EmptyMat)
    case AssertionFailed => Err(AssertionError)
    case Interleaved(order, k) =>
      Ok(Rgba(if order == NV12 then FromNV12 else FromNV21, image.height, image.width,
              [image.planes[0].bytes, image.planes[k].bytes]))
    case Planar =>
      match PackedI420(image.width, image.height, image.planes[0].bytes, image.planes[1].bytes,
                       image.planes[2].bytes, image.planes[1].rowStride)
      case Err(e) => Err(e)
      case Ok(yuvBytes) => Ok(Rgba(FromI420, image.height, image.width, [yuvBytes]))
  }

  /** Imgproc.cvtColor(rgbMat, buf, COLOR_RGBA2GRAY): a gray Mat of the same size.
      OpenCV refuses an input that is empty or not a colour Mat. */
  function GrayOf(rgba: Mat): (r: Result<Mat>)
    ensures r.Err? <==> !rgba.Rgba?
    ensures r.Ok? ==> r.value.Gray? && r.value.rows == rgba.rows && r.value.cols == rgba.cols && r.value.source == rgba
  {
    match rgba
    case Rgba(_, rows, cols, _) => Ok(Gray(rows, cols, rgba))
    case _ => Err(OpenCvError)
  }

  /** Bitmap.createBitmap(buf.cols(), buf.rows(), ARGB_8888), which throws for a
      zero width or height, followed by Utils.matToBitmap(buf, bmp). */
  function ToBitmap(gray: Mat): (r: Result<Bitmap>)
    requires gray.Gray?
    ensures r.Ok? <==> gray.cols > 0 && gray.rows > 0
    ensures r.Ok? ==> r.value.width == gray.cols && r.value.height == gray.rows && r.value.pixels == gray
  {
    if gray.cols == 0 || gray.rows == 0 then Err(IllegalArgument) else Ok(Bitmap(gray.cols, gray.rows, gray))
  }

  /** What analyze does with yuvToRgba's Mat: the gray conversion, the bitmap,
      and the listener's arguments. */
  function GrayFrame(rgba: Mat): (r: Result<Frame>)
    ensures r.Ok? <==> rgba.Rgba? && rgba.rows > 0 && rgba.cols > 0
    ensures r.Ok? ==> r.value.message == "Frame" && r.value.bitmap.width == rgba.cols && r.value.bitmap.height == rgba.rows
    ensures r.Ok? ==> r.value.bitmap.pixels == Gray(rgba.rows, rgba.cols, rgba)
    ensures r.Err? ==> (r.error == OpenCvError <==> !rgba.Rgba?)
  {
    match GrayOf(rgba)
    case Err(e) => Err(e)
    case Ok(gray) =>
      match ToBitmap(gray)
      case Err(e) => Err(e)
      case Ok(bmp) => Ok(Frame("Frame", bmp))
  }

  /** The body of analyze's guard: yuvToRgba, then the gray frame. A frame comes
      out exactly when the image passes the guard, yuvToRgba returns and neither
      side is zero; it has the camera frame's size. */
  function ConvertFrame(image: Image, assertionsEnabled: bool): (r: Result<Frame>)
    ensures r.Ok? <==>
              IsSupported(image) && YuvToRgbaSpec(image, assertionsEnabled).Ok? && image.width > 0 && image.height > 0
    ensures r.Ok? ==> r.value.message == "Frame" && r.value.bitmap.width == image.width && r.value.bitmap.height == image.height
  {
    match YuvToRgbaSpec(image, assertionsEnabled)
    case Err(e) => Err(e)
    case Ok(rgba) => GrayFrame(rgba)
  }

  /** analyze on a proxy whose image is `image` (None when ImageProxy.getImage is null).
      image.close() is not in a finally block, so an exception skips it: an
      exception only comes from a frame that passes the guard, and then nothing
      reaches the listener and the frame stays open. */
  function AnalyzeSpec(image: Option<Image>, assertionsEnabled: bool): (a: Analysis)
    ensures a.thrown.Some? ==> image.Some? && IsSupported(image.value) && a.emitted == [] && !a.closed
  {
    if image.None? || !IsSupported(image.value) then Analysis([], true, None)
    else
      match ConvertFrame(image.value, assertionsEnabled)
      case Err(e) => Analysis([], false, Some(e))
      case Ok(frame) => Analysis([frame], true, None)
  }

  // ---------------------------------------------------------------------------
  // Properties

  /** A frame that is missing, not YUV_420_888 or not three planes takes neither
      branch: nothing reaches the listener, nothing is thrown, and it is closed. */
  lemma UnsupportedFrameOnlyClosed(image: Option<Image>, assertionsEnabled: bool)
    requires image.None? || !IsSupported(image.value)
    ensures AnalyzeSpec(image, assertionsEnabled) == Analysis([], true, None)
  {
  }

  /** analyze repeats yuvToRgba's guard, so the Mat() that yuvToRgba returns for an
      unsupported frame never reaches the gray conversion: such a frame is only
      closed, and every Mat the gray conversion is handed is an RGBA Mat, so the
      gray conversion's own refusal of a non-colour input cannot escape analyze. */
  lemma GuardKeepsEmptyMatOut(image: Option<Image>, assertionsEnabled: bool)
    ensures image.Some? && YuvToRgbaSpec(image.value, assertionsEnabled) == Ok(EmptyMat) ==>
              AnalyzeSpec(image, assertionsEnabled) == Analysis([], true, None)
    ensures image.Some? && IsSupported(image.value) && YuvToRgbaSpec(image.value, assertionsEnabled).Ok? ==>
              YuvToRgbaSpec(image.value, assertionsEnabled).value.Rgba?
    ensures AnalyzeSpec(image, assertionsEnabled).thrown != Some(OpenCvError)
  {
    if image.Some? && IsSupported(image.value) {
      var r := YuvToRgbaSpec(image.value, assertionsEnabled);
      assert r.Ok? ==> r.value.Rgba?;
    }
  }

  /** The frame is closed exactly when no exception escapes; at most one frame is
      handed on, and only when the frame is closed. */
  lemma ClosedUnlessThrown(image: Option<Image>, assertionsEnabled: bool)
    ensures var a := AnalyzeSpec(image, assertionsEnabled);
            (a.closed <==> a.thrown.None?) && |a.emitted| <= 1 && (|a.emitted| == 1 ==> a.closed)
  {
  }

  /** A frame is handed to the listener exactly when the frame is supported,
      yuvToRgba returns, and the frame has a non-zero width and height; it is then
      labelled "Frame" and its bitmap has the camera frame's size. */
  lemma EmittedFrameHasFrameSize(image: Option<Image>, assertionsEnabled: bool)
    ensures var a := AnalyzeSpec(image, assertionsEnabled);
            |a.emitted| == 1 <==>
              image.Some? && IsSupported(image.value) && YuvToRgbaSpec(image.value, assertionsEnabled).Ok? &&
              image.value.width > 0 && image.value.height > 0
    ensures var a := AnalyzeSpec(image, assertionsEnabled);
            |a.emitted| == 1 ==>
              a.emitted[0].message == "Frame" &&
              a.emitted[0].bitmap.width == image.value.width && a.emitted[0].bitmap.height == image.value.height
  {
    if image.Some? && IsSupported(image.value) {
      var r := YuvToRgbaSpec(image.value, assertionsEnabled);
      assert r.Ok? ==> r.value.Rgba?;
    }
  }

  /** Kotlin assertions only add AssertionError: with them off analyze never
      throws it, and with them on it behaves as with them off unless it throws it. */
  lemma AssertionsOnlyAddAssertionError(image: Option<Image>)
    ensures AnalyzeSpec(image, false).thrown != Some(AssertionError)
    ensures AnalyzeSpec(image, true).thrown != Some(AssertionError) ==> AnalyzeSpec(image, true) == AnalyzeSpec(image, false)
  {
    if image.Some? {
      AssertionsOnlyReject(image.value);
    }
  }

  /** The planar branch takes the padding of both chroma planes from plane 1's row
      stride: plane 2's own row stride is never consulted. */
  lemma PlaneTwoRowStrideIgnored(image: Image, rowStride: nat, assertionsEnabled: bool)
    requires |image.planes| == 3
    ensures var other := image.(planes := image.planes[2 := image.planes[2].(rowStride := rowStride)]);
            YuvToRgbaSpec(other, assertionsEnabled) == YuvToRgbaSpec(image, assertionsEnabled)
  {
    var other := image.(planes := image.planes[2 := image.planes[2].(rowStride := rowStride)]);
    assert Classify(other, assertionsEnabled) == Classify(image, assertionsEnabled);
  }

  /** End to end: a planar frame of even size whose chroma rows are padded is
      analyzed exactly like the frame whose chroma planes hold the same rows back
      to back (row stride width / 2). */
  lemma PaddedFrameAnalyzesAsUnpadded(image: Image, uTight: seq<byte>, vTight: seq<byte>, assertionsEnabled: bool)
    requires IsSupported(image) && image.planes[1].pixelStride != 2
    requires image.width % 2 == 0 && image.height % 2 == 0
    requires image.width * image.height <= |image.planes[0].bytes|
    requires ChromaFits(|image.planes[1].bytes|, image.planes[1].rowStride, image.height / 2, image.width / 2)
    requires ChromaFits(|image.planes[2].bytes|, image.planes[1].rowStride, image.height / 2, image.width / 2)
    requires (image.height / 2) * (image.width / 2) <= |uTight| && (image.height / 2) * (image.width / 2) <= |vTight|
    requires uTight[..(image.height / 2) * (image.width / 2)] ==
               ChromaRows(image.planes[1].bytes, image.planes[1].rowStride, image.height / 2, image.width / 2)
    requires vTight[..(image.height / 2) * (image.width / 2)] ==
               ChromaRows(image.planes[2].bytes, image.planes[1].rowStride, image.height / 2, image.width / 2)
    ensures var tight := image.(planes := [image.planes[0], image.planes[1].(rowStride := image.width / 2, bytes := uTight),
                                           image.planes[2].(bytes := vTight)]);
            YuvToRgbaSpec(image, assertionsEnabled).Ok? &&
            AnalyzeSpec(Some(image), assertionsEnabled) == AnalyzeSpec(Some(tight), assertionsEnabled)
  {
    var tight := image.(planes := [image.planes[0], image.planes[1].(rowStride := image.width / 2, bytes := uTight),
                                   image.planes[2].(bytes := vTight)]);
    PaddedEqualsUnpadded(image.width, image.height, image.planes[0].bytes, image.planes[1].bytes, image.planes[2].bytes,
                         image.planes[1].rowStride, uTight, vTight);
    assert Classify(image, assertionsEnabled) == Planar;
    assert Classify(tight, assertionsEnabled) == Planar;
    assert YuvToRgbaSpec(image, assertionsEnabled) == YuvToRgbaSpec(tight, assertionsEnabled);
  }

  // ---------------------------------------------------------------------------
  // The analyzer itself

  /** androidx.camera.core.ImageProxy: the frame it wraps (None when getImage() is
      null) and whether close() has been called. */
  class ImageProxy {
    const image: Option<Image>
    var closed: bool

    constructor (image: Option<Image>)
      ensures this.image == image && !closed
    {
      this.image := image;
      closed := false;
    }

    method Close()
      modifies this
      ensures closed
    {
      closed := true;
    }
  }

  /** The OpencvListener the analyzer was built with, seen as the frames it has received. */
  class FrameListener {
    var received: seq<Frame>

    constructor ()
      ensures received == []
    {
      received := [];
    }

    method Accept(message: string, bitmap: Bitmap)
      modifies this
      ensures received == old(received) + [Frame(message, bitmap)]
    {
      received := received + [Frame(message, bitmap)];
    }
  }

  /** The planar branch of yuvToRgba: the planes' buffers, each at position 0,
      packed into the I420 array and converted. */
  method PlanarToRgba(image: Image) returns (r: Result<Mat>)
    requires |image.planes| == 3
    ensures r == match PackedI420(image.width, image.height, image.planes[0].bytes, image.planes[1].bytes,
                                  image.planes[2].bytes, image.planes[1].rowStride)
                 case Err(e) => Err(e)
                 case Ok(yuvBytes) => Ok(Rgba(FromI420, image.height, image.width, [yuvBytes]))
  {
    var yPlane := new ByteBuffer(image.planes[0].bytes);
    var uPlane := new ByteBuffer(image.planes[1].bytes);
    var vPlane := new ByteBuffer(image.planes[2].bytes);
    var packed := PackI420(image.width, image.height, yPlane, uPlane, vPlane, image.planes[1].rowStride);
    match packed
    case Err(e) => r := Err(e);
    case Ok(yuvBytes) => r := Ok(Rgba(FromI420, image.height, image.width, [yuvBytes]));
  }

  /** Image.yuvToRgba, with Kotlin's `assert` throwing only when `assertionsEnabled`. */
  method YuvToRgba(image: Image, assertionsEnabled: bool) returns (r: Result<Mat>)
    ensures r == YuvToRgbaSpec(image, assertionsEnabled)
  {
    var rgbaMat := EmptyMat;
    if image.format == YUV_420_888 && |image.planes| == 3 {
      var chromaPixelStride := image.planes[1].pixelStride;
      if chromaPixelStride == 2 {
        if assertionsEnabled && image.planes[0].pixelStride != 1 {
          return Err(AssertionError);
        }
        if assertionsEnabled && image.planes[2].pixelStride != 2 {
          return Err(AssertionError);
        }
        var addrDiff := image.planes[2].address - image.planes[1].address;
        if addrDiff > 0 {
          if assertionsEnabled && addrDiff != 1 {
            return Err(AssertionError);
          }
          rgbaMat := Rgba(FromNV12, image.height, image.width, [image.planes[0].bytes, image.planes[1].bytes]);
        } else {
          if assertionsEnabled && addrDiff != -1 {
            return Err(AssertionError);
          }
          rgbaMat := Rgba(FromNV21, image.height, image.width, [image.planes[0].bytes, image.planes[2].bytes]);
        }
      } else {
        r := PlanarToRgba(image);
        return;
      }
    }
    return Ok(rgbaMat);
  }

  /** LightnessAnalyzer.analyze: the same guard as yuvToRgba, then the gray
      bitmap to the listener, then image.close(), which an exception skips. */
  method Analyze(proxy: ImageProxy, listener: FrameListener, assertionsEnabled: bool) returns (thrown: Option<JavaException>)
    modifies proxy, listener
    ensures var a := AnalyzeSpec(proxy.image, assertionsEnabled);
            thrown == a.thrown && listener.received == old(listener.received) + a.emitted &&
            proxy.closed == (old(proxy.closed) || a.closed)
  {
    thrown := None;
    if proxy.image.Some? {
      var it := proxy.image.value;
      if it.format == YUV_420_888 && |it.planes| == 3 {
        var rgbMat := YuvToRgba(it, assertionsEnabled);
        if rgbMat.Err? {
          return Some(rgbMat.error);
        }
        var frame := GrayFrame(rgbMat.value);
        if frame.Err? {
          return Some(frame.error);
        }
        listener.Accept(frame.value.message, frame.value.bitmap);
      }
    }
    proxy.Close();
  }
}
