/** The geometry of `centerFace`: which face box is used, the crop window
    around it, and the size the crop is resized to on the preview canvas.
    The cascade detectors and the resampler are parameters. */
module Framing {
  import opened Util
  import opened Raster

  /** `(x, y, w, h)` as the detector returns it. */
  datatype Box = Box(x: int, y: int, w: int, h: int)

  /** What the detectors report for one image: the face pass with strict
      settings, the face pass with permissive settings, and the eye pass. */
  datatype Detections = Detections(strict: seq<Box>, permissive: seq<Box>, eyes: seq<Box>)

  /** A square face box three eye-distances wide around the midpoint of the
      two eyes. Python's `//` is floor division, as `/` is here. */
  function EyeFallback(e1: Box, e2: Box): (b: Box)
    ensures b.w == b.h == 3 * Abs(e1.x - e2.x)
    ensures FaceCentre(b) == ((e1.x + e2.x) / 2, (e1.y + e2.y) / 2)
  {
    var cx := (e1.x + e2.x) / 2;
    var cy := (e1.y + e2.y) / 2;
    var size := 3 * Abs(e1.x - e2.x);
    Box(cx - size / 2, cy - size / 2, size, size)
  }

  /** `detect_face`: the strict pass, else the permissive pass, else a box
      built from the first two eyes, else nothing. No face is found exactly
      when both face passes find nothing and fewer than two eyes are found,
      and the face used comes from the first pass that found something. */
  function DetectFace(d: Detections): (r: seq<Box>)
    ensures r == [] <==> d.strict == [] && d.permissive == [] && |d.eyes| < 2
    ensures |r| > 0 ==>
      if |d.strict| > 0 then r[0] == d.strict[0]
      else if |d.permissive| > 0 then r[0] == d.permissive[0]
      else r[0] == EyeFallback(d.eyes[0], d.eyes[1])
  {
    if |d.strict| > 0 then d.strict
    else if |d.permissive| > 0 then d.permissive
    else if |d.eyes| >= 2 then [EyeFallback(d.eyes[0], d.eyes[1])]
    else []
  }

  /** The point `centerFace` centres the crop on. */
  function FaceCentre(b: Box): (int, int) {
    (b.x + b.w / 2, b.y + b.h / 2)
  }

  // ---------------------------------------------------------------------
  // The crop window

  /** `int(h * 2.2)`: at least twice the face box's height. */
  function FaceHeight(h: int): (r: int)
    ensures h >= 0 ==> 2 * h <= r && r as real <= h as real * 2.2
  {
    Trunc(h as real * 2.2)
  }

  /** `int(face_height * (target_width / target_height))`. */
  function FaceWidth(faceHeight: int, targetWidth: real, targetHeight: real): (r: int)
    requires targetHeight != 0.0
    ensures faceHeight >= 0 && targetWidth / targetHeight >= 0.0 ==>
      0 <= r && r as real <= faceHeight as real * (targetWidth / targetHeight) < r as real + 1.0
  {
    Trunc(faceHeight as real * (targetWidth / targetHeight))
  }

  /** One axis of the window as written: `extent / 2` either side of the
      centre, clamped to the image; a window touching the start is moved to
      start there with its full extent, else one touching the end is moved to
      end there, which can start it at a negative index. */
  function SlideAsWritten(centre: int, extent: int, length: nat): (r: (int, int))
    ensures extent >= 0 ==> r.0 <= r.1
    ensures r.0 < 0 ==> extent > length && r == (length - extent, length)
  {
    var lo := Max(0, centre - extent / 2);
    var hi := Min(length, centre + extent / 2);
    if lo == 0 then (0, extent)
    else if hi == length then (length - extent, hi)
    else (lo, hi)
  }

  /** The same rule with the moved start kept at 0 or after. It differs from
      the rule as written only where that one starts at a negative index. */
  function Slide(centre: int, extent: int, length: nat): (r: (int, int))
    ensures extent >= 0 ==> 0 <= r.0 <= r.1
    ensures SlideAsWritten(centre, extent, length).0 >= 0 ==> r == SlideAsWritten(centre, extent, length)
    ensures extent <= length ==> r == SlideAsWritten(centre, extent, length)
  {
    var lo := Max(0, centre - extent / 2);
    var hi := Min(length, centre + extent / 2);
    if lo == 0 then (0, extent)
    else if hi == length then (Max(0, length - extent), hi)
    else (lo, hi)
  }

  /** How many indices `[lo:hi]` selects from `length`, with Python's slice
      normalisation. */
  function Extent(length: nat, lo: int, hi: int): nat {
    Max(SliceIndex(length, lo), SliceIndex(length, hi)) - SliceIndex(length, lo)
  }

  /** A window that fits the image keeps its extent, one row short only when
      the extent is odd and neither edge was touched; a window larger than
      the image takes all of it. */
  lemma SlideKeepsExtent(centre: int, extent: int, length: nat)
    requires extent >= 0
    ensures var (lo, hi) := Slide(centre, extent, length);
      (extent > length ==> Extent(length, lo, hi) == length)
      && (extent <= length ==>
            Extent(length, lo, hi) == extent || (Extent(length, lo, hi) == extent - 1 && extent % 2 == 1))
  {
  }

  /** As written, a face half as high as a 100-row image and low in it gets a
      window from -10 to 100, and Python reads -10 as row 90: the crop keeps
      10 rows instead of all 100. */
  lemma SlideAsWrittenWrapsAround()
    ensures FaceHeight(50) == 110 && FaceCentre(Box(25, 40, 50, 50)).1 == 65
    ensures SlideAsWritten(65, 110, 100) == (-10, 100) && Extent(100, -10, 100) == 10
    ensures Slide(65, 110, 100) == (0, 100) && Extent(100, 0, 100) == 100
  {
  }

  /** `image[top:bottom, left:right]`. */
  function Crop(img: Image, top: int, bottom: int, left: int, right: int): (r: Image)
    ensures r.Height() == Extent(img.Height(), top, bottom)
    ensures r.width == Extent(img.width, left, right)
  {
    var t := SliceIndex(img.Height(), top);
    var b := Max(t, SliceIndex(img.Height(), bottom));
    var l := SliceIndex(img.width, left);
    var rt := Max(l, SliceIndex(img.width, right));
    Grid(rt - l, seq(b - t, i requires 0 <= i < b - t => img.cells[t + i][l..rt]))
  }

  /** Each crop pixel is the image pixel at the window's offset. */
  lemma CropPixels(img: Image, top: int, bottom: int, left: int, right: int, i: int, j: int)
    requires var c := Crop(img, top, bottom, left, right); 0 <= i < c.Height() && 0 <= j < c.width
    ensures Crop(img, top, bottom, left, right).cells[i][j]
      == img.cells[SliceIndex(img.Height(), top) + i][SliceIndex(img.width, left) + j]
  {
  }

  // ---------------------------------------------------------------------
  // Resizing onto the canvas

  datatype Size = Size(width: int, height: int)

  /** The resize target: the canvas height and the crop's aspect when the
      canvas is relatively wider than the crop, the canvas width otherwise.
      None where a division by zero raises. */
  function ResizeTarget(cropWidth: nat, cropHeight: nat, canvasWidth: real, canvasHeight: real): (r: Option<Size>)
    ensures r.None? <==>
      canvasHeight == 0.0 || cropHeight == 0 || (cropWidth == 0 && canvasWidth / canvasHeight <= 0.0)
  {
    if canvasHeight == 0.0 || cropHeight == 0 then None
    else
      var canvasAspect := canvasWidth / canvasHeight;
      var imageAspect := cropWidth as real / cropHeight as real;
      if canvasAspect > imageAspect then
        var h := Trunc(canvasHeight);
        Some(Size(Trunc(h as real * imageAspect), h))
      else if imageAspect == 0.0 then None
      else
        var w := Trunc(canvasWidth);
        Some(Size(w, Trunc(w as real / imageAspect)))
  }

  lemma MulLe(a: real, b: real, c: real)
    requires a <= b && c >= 0.0
    ensures a * c <= b * c
  {
  }

  /** The branch that keeps the canvas height: the width follows the aspect
      and stays within the canvas because the canvas is relatively wider. */
  lemma FitByHeight(canvasWidth: real, canvasHeight: real, aspect: real)
    requires canvasWidth > 0.0 && canvasHeight > 0.0 && aspect > 0.0
    requires canvasWidth / canvasHeight > aspect
    ensures var h := Trunc(canvasHeight); var w := Trunc(h as real * aspect);
      0 <= w && w as real <= canvasWidth && 0 <= h && h as real <= canvasHeight
      && w as real <= h as real * aspect < w as real + 1.0
  {
    var h := Trunc(canvasHeight);
    var canvasAspect := canvasWidth / canvasHeight;
    assert canvasAspect * canvasHeight == canvasWidth;
    MulLe(h as real, canvasHeight, aspect);
    MulLe(aspect, canvasAspect, canvasHeight);
  }

  /** The branch that keeps the canvas width: the height follows the aspect
      and stays within the canvas because the crop is relatively wider. */
  lemma FitByWidth(canvasWidth: real, canvasHeight: real, aspect: real)
    requires canvasWidth > 0.0 && canvasHeight > 0.0 && aspect > 0.0
    requires canvasWidth / canvasHeight <= aspect
    ensures var w := Trunc(canvasWidth); var h := Trunc(w as real / aspect);
      0 <= w && w as real <= canvasWidth && 0 <= h && h as real <= canvasHeight
      && h as real <= w as real / aspect < h as real + 1.0
  {
    var w := Trunc(canvasWidth);
    var canvasAspect := canvasWidth / canvasHeight;
    assert canvasAspect * canvasHeight == canvasWidth;
    MulLe(canvasAspect, aspect, canvasHeight);
    assert canvasWidth <= aspect * canvasHeight;
    assert w as real / aspect <= canvasWidth / aspect;
    assert canvasWidth / aspect <= canvasHeight;
  }

  /** For a non-empty crop and a positive canvas the target fits the canvas,
      one side is the canvas side truncated, and the other follows the crop's
      aspect to within one pixel. */
  lemma ResizeFitsCanvas(cropWidth: nat, cropHeight: nat, canvasWidth: real, canvasHeight: real)
    requires cropWidth > 0 && cropHeight > 0 && canvasWidth > 0.0 && canvasHeight > 0.0
    ensures ResizeTarget(cropWidth, cropHeight, canvasWidth, canvasHeight).Some?
    ensures var s := ResizeTarget(cropWidth, cropHeight, canvasWidth, canvasHeight).value;
      var aspect := cropWidth as real / cropHeight as real;
      0 <= s.width && s.width as real <= canvasWidth && 0 <= s.height && s.height as real <= canvasHeight
      && ((s.height == Trunc(canvasHeight) && s.width as real <= s.height as real * aspect < s.width as real + 1.0)
          || (s.width == Trunc(canvasWidth) && s.height as real <= s.width as real / aspect < s.height as real + 1.0))
  {
    var aspect := cropWidth as real / cropHeight as real;
    assert aspect > 0.0;
    if canvasWidth / canvasHeight > aspect {
      FitByHeight(canvasWidth, canvasHeight, aspect);
    } else {
      FitByWidth(canvasWidth, canvasHeight, aspect);
    }
  }

  /** `cv2.resize` to `width` x `height`: the pixel at row `i`, column `j` of
      the result is whatever the interpolation makes of the source. */
  type Resampler = (Image, nat, nat, int, int) -> Pixel

  function Resize(src: Image, width: nat, height: nat, resample: Resampler): (r: Image)
    ensures r.width == width && r.Height() == height
  {
    Grid(width, seq(height, i => seq(width, j => resample(src, width, height, i, j))))
  }

  /** The crop window the model uses, around the first face. */
  function Window(img: Image, face: Box, targetWidth: real, targetHeight: real): (r: (int, int, int, int))
    requires targetHeight != 0.0
    ensures face.h >= 0 ==> 0 <= r.0 <= r.1
    ensures FaceWidth(FaceHeight(face.h), targetWidth, targetHeight) >= 0 ==> 0 <= r.2 <= r.3
  {
    var faceHeight := FaceHeight(face.h);
    var faceWidth := FaceWidth(faceHeight, targetWidth, targetHeight);
    var (cx, cy) := FaceCentre(face);
    var (top, bottom) := Slide(cy, faceHeight, img.Height());
    var (left, right) := Slide(cx, faceWidth, img.width);
    (top, bottom, left, right)
  }

  /** Crop around the face and resize onto the canvas; None wherever Python
      or OpenCV raises: a zero target height, a zero canvas height, an empty
      crop, or a target side that is not positive. */
  function FrameFace(img: Image, face: Box, targetWidth: real, targetHeight: real,
                     canvasWidth: real, canvasHeight: real, resample: Resampler): (r: Option<Image>)
    ensures r.Some? ==> r.value.width > 0 && r.value.Height() > 0
  {
    if targetHeight == 0.0 then None
    else
      var (top, bottom, left, right) := Window(img, face, targetWidth, targetHeight);
      var crop := Crop(img, top, bottom, left, right);
      match ResizeTarget(crop.width, crop.Height(), canvasWidth, canvasHeight)
      case None => None
      case Some(size) =>
        if crop.width == 0 || size.width <= 0 || size.height <= 0 then None
        else Some(Resize(crop, size.width, size.height, resample))
  }

  /** On a positive canvas a framed photo fits the canvas, and one of its
      sides is the canvas side truncated. */
  lemma FrameFaceFitsCanvas(img: Image, face: Box, targetWidth: real, targetHeight: real,
                            canvasWidth: real, canvasHeight: real, resample: Resampler)
    requires canvasWidth > 0.0 && canvasHeight > 0.0
    requires FrameFace(img, face, targetWidth, targetHeight, canvasWidth, canvasHeight, resample).Some?
    ensures var r := FrameFace(img, face, targetWidth, targetHeight, canvasWidth, canvasHeight, resample).value;
      r.width as real <= canvasWidth && r.Height() as real <= canvasHeight
      && (r.width == Trunc(canvasWidth) || r.Height() == Trunc(canvasHeight))
  {
    var (top, bottom, left, right) := Window(img, face, targetWidth, targetHeight);
    var crop := Crop(img, top, bottom, left, right);
    ResizeFitsCanvas(crop.width, crop.Height(), canvasWidth, canvasHeight);
  }

  /** The crop keeps the face window's height, or the whole image height
      when the window is taller than the image; likewise its width keeps the
      window's width `int(face_height * target_width / target_height)`. */
  lemma FrameCropExtent(img: Image, face: Box, targetWidth: real, targetHeight: real)
    requires targetHeight != 0.0 && face.h >= 0
    ensures var (top, bottom, left, right) := Window(img, face, targetWidth, targetHeight);
      var rows := Crop(img, top, bottom, left, right).Height();
      var faceHeight := FaceHeight(face.h);
      (faceHeight > img.Height() ==> rows == img.Height())
      && (faceHeight <= img.Height() ==> rows == faceHeight || (rows == faceHeight - 1 && faceHeight % 2 == 1))
    ensures var (top, bottom, left, right) := Window(img, face, targetWidth, targetHeight);
      var cols := Crop(img, top, bottom, left, right).width;
      var faceWidth := FaceWidth(FaceHeight(face.h), targetWidth, targetHeight);
      faceWidth >= 0 ==>
        (faceWidth > img.width ==> cols == img.width)
        && (faceWidth <= img.width ==> cols == faceWidth || (cols == faceWidth - 1 && faceWidth % 2 == 1))
  {
    var faceHeight := FaceHeight(face.h);
    var faceWidth := FaceWidth(faceHeight, targetWidth, targetHeight);
    assert faceHeight >= 0;
    SlideKeepsExtent(FaceCentre(face).1, faceHeight, img.Height());
    if faceWidth >= 0 {
      SlideKeepsExtent(FaceCentre(face).0, faceWidth, img.width);
    }
  }
}
