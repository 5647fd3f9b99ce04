/** The camera frame as the analyzer sees it, and the decision yuvToRgba takes
    before any colour arithmetic: is this a three-plane YUV_420_888 frame at all,
    and if so are its chroma samples interleaved (NV12 or NV21) or planar (I420)? */
module Layout {

  import opened Jvm

  /** android.graphics.ImageFormat.YUV_420_888 */
  const YUV_420_888: int := 0x23

  /** One android.media.Image.Plane. `address` is where the plane's view starts
      inside the backing store shared by the planes of one frame, standing for the
      native address OpenCV's Mat.dataAddr() reports; `bytes` is what its buffer holds. */
  datatype Plane = Plane(rowStride: nat, pixelStride: nat, address: int, bytes: seq<byte>)

  /** One android.media.Image: format tag, frame size and planes. */
  datatype Image = Image(format: int, width: nat, height: nat, planes: seq<Plane>)

  /** Byte order of interleaved chroma: NV12 is U first, NV21 is V first. */
  datatype ChromaOrder = NV12 | NV21

  datatype Classification =
    | Unsupported                                       // neither branch of yuvToRgba runs
    | Interleaved(order: ChromaOrder, chromaPlane: nat) // semi-planar; the plane handed to OpenCV
    | Planar                                            // I420, possibly with padded chroma rows
    | AssertionFailed                                   // one of the Kotlin asserts threw

  /** The guard shared by yuvToRgba and analyze. */
  predicate IsSupported(image: Image)
  {
    image.format == YUV_420_888 && |image.planes| == 3
  }

  /** uvMat2.dataAddr() - uvMat1.dataAddr(): where the second chroma view starts
      relative to the first. */
  function AddressDifference(image: Image): int
    requires |image.planes| == 3
  {
    image.planes[2].address - image.planes[1].address
  }

  /** The branch structure of yuvToRgba. The pixel stride of plane 1 alone picks
      interleaved or planar; on the interleaved side the sign of the address
      difference picks NV12 (plane 1) or NV21 (plane 2). Kotlin's `assert` only
      throws when JVM assertions are enabled, hence `assertionsEnabled`. */
  function Classify(image: Image, assertionsEnabled: bool): (c: Classification)
    ensures c.Unsupported? <==> !IsSupported(image)
    ensures c.Planar? <==> IsSupported(image) && image.planes[1].pixelStride != 2
    ensures c.Interleaved? || c.AssertionFailed? <==> IsSupported(image) && image.planes[1].pixelStride == 2
    ensures c.Interleaved? ==> (c.order == NV12 && c.chromaPlane == 1) || (c.order == NV21 && c.chromaPlane == 2)
    ensures c.AssertionFailed? ==> assertionsEnabled
    ensures assertionsEnabled && IsSupported(image) && image.planes[1].pixelStride == 2 &&
              (image.planes[0].pixelStride != 1 || image.planes[2].pixelStride != 2)
            ==> c.AssertionFailed?
  {
    if !IsSupported(image) then Unsupported
    else if image.planes[1].pixelStride != 2 then Planar
    else if assertionsEnabled && image.planes[0].pixelStride != 1 then AssertionFailed
    else if assertionsEnabled && image.planes[2].pixelStride != 2 then AssertionFailed
    else
      var diff := AddressDifference(image);
      if diff > 0 then
        if assertionsEnabled && diff != 1 then AssertionFailed else Interleaved(NV12, 1)
      else
        if assertionsEnabled && diff != -1 then AssertionFailed else Interleaved(NV21, 2)
  }

  /** With assertions on and well-formed pixel strides, an address difference of
      +1 means NV12 read from plane 1, -1 means NV21 read from plane 2, and any
      other difference fails an assertion. */
  lemma InterleavedOrder(image: Image)
    requires IsSupported(image)
    requires image.planes[0].pixelStride == 1
    requires image.planes[1].pixelStride == 2 && image.planes[2].pixelStride == 2
    ensures Classify(image, true) ==
              if AddressDifference(image) == 1 then Interleaved(NV12, 1)
              else if AddressDifference(image) == -1 then Interleaved(NV21, 2)
              else AssertionFailed
  {
  }

  /** The chroma view handed to OpenCV is the one that starts first in memory,
      and (with assertions on) the other chroma view starts exactly one byte later. */
  lemma ChromaSourceStartsFirst(image: Image, assertionsEnabled: bool)
    requires Classify(image, assertionsEnabled).Interleaved?
    ensures var k := Classify(image, assertionsEnabled).chromaPlane;
            image.planes[k].address <= image.planes[3 - k].address &&
            (assertionsEnabled ==> image.planes[3 - k].address == image.planes[k].address + 1)
  {
  }

  /** The assertions only ever turn a frame into an AssertionError: with them off
      nothing fails, and wherever they pass the outcome is the same as without them. */
  lemma AssertionsOnlyReject(image: Image)
    ensures !Classify(image, false).AssertionFailed?
    ensures !Classify(image, true).AssertionFailed? ==> Classify(image, true) == Classify(image, false)
  {
  }

  /** With assertions off (how an Android build runs them) the sign of the address
      difference alone decides the order: positive is NV12, zero or negative NV21. */
  lemma UncheckedOrder(image: Image)
    requires IsSupported(image) && image.planes[1].pixelStride == 2
    ensures Classify(image, false) == if AddressDifference(image) > 0 then Interleaved(NV12, 1) else Interleaved(NV21, 2)
  {
  }
}
