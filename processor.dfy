/** The `ImageProcessor` object behind the user interface: the state its
    slots keep between calls and how each slot changes it. A slot that
    raises in the source leaves the state as it was at the point of the
    raise and reports failure here. */
module Processor {
  import opened Util
  import opened PhotoSizes
  import opened Raster
  import Layout
  import Colour
  import Framing

  /** The background-removed image recoloured through the mask, if every
      piece is there, the colour reads and the shapes agree. */
  function Recoloured(removed: Option<Image>, mask: Option<Mask>, colour: string): (r: Option<Image>)
    ensures r.Some? ==> removed.Some? && mask.Some? && SameShape(r.value, removed.value)
  {
    if removed.None? || mask.None? then None
    else
      match Colour.ParseColour(colour)
      case None => None
      case Some(background) => Composite(removed.value, mask.value, background)
  }

  /** The image `adjustImageForPersonalData` shows for an adjusted image:
      shifted up by the caption band when the data is shown, unless numpy
      rejects the shift. */
  function WithCaptionBand(adjusted: Image, showData: bool, ratio: real): (r: Image)
    ensures SameShape(r, adjusted)
    ensures !showData ==> r == adjusted
    ensures showData && ShiftAmount(adjusted.Height(), ratio) >= 1 ==>
      forall i :: 0 <= i < adjusted.Height() - ShiftAmount(adjusted.Height(), ratio) ==>
        r.cells[i] == adjusted.cells[i + ShiftAmount(adjusted.Height(), ratio)]
  {
    if showData then
      match CaptionShift(adjusted, ShiftAmount(adjusted.Height(), ratio))
      case None => adjusted
      case Some(shifted) => shifted
    else adjusted
  }

  class ImageProcessor {
    var image: Option<Image>
    var originalImage: Option<Image>
    var centeredImage: Option<Image>
    var centeredOriginal: Option<Image>
    var isCentered: bool
    var printLayout: seq<Layout.Slot>
    var currentPhotoSize: Option<PhotoSize>
    var brightness: real
    var contrast: real
    var saturation: real
    var backgroundColor: string
    var backgroundRemovedImage: Option<Image>
    var mask: Option<Mask>

    /** A stored photo size was read from text, so it is never negative. */
    predicate Valid()
      reads this
    {
      currentPhotoSize.Some? ==> currentPhotoSize.value.widthCm >= 0.0 && currentPhotoSize.value.heightCm >= 0.0
    }

    constructor()
      ensures Valid()
      ensures image == None && originalImage == None && centeredImage == None && centeredOriginal == None
      ensures !isCentered && printLayout == [] && currentPhotoSize == None
      ensures brightness == 0.0 && contrast == 0.0 && saturation == 0.0
      ensures backgroundColor == "#FFFFFF" && backgroundRemovedImage == None && mask == None
    {
      image := None;
      originalImage := None;
      centeredImage := None;
      centeredOriginal := None;
      isCentered := false;
      printLayout := [];
      currentPhotoSize := None;
      brightness := 0.0;
      contrast := 0.0;
      saturation := 0.0;
      backgroundColor := "#FFFFFF";
      backgroundRemovedImage := None;
      mask := None;
    }

    /** `loadImage` with the decoded file, None when it cannot be read. An
        unreadable file still clears the original image before `.copy()`
        raises. The centred image is not cleared. */
    method LoadImage(decoded: Option<Image>) returns (ok: bool)
      modifies this`originalImage, this`image, this`isCentered, this`backgroundRemovedImage, this`mask,
               this`brightness, this`contrast, this`saturation
      ensures ok <==> decoded.Some?
      ensures originalImage == decoded
      ensures !ok ==> (image == old(image) && isCentered == old(isCentered)
        && backgroundRemovedImage == old(backgroundRemovedImage) && mask == old(mask)
        && brightness == old(brightness) && contrast == old(contrast) && saturation == old(saturation))
      ensures ok ==> (image == decoded && !isCentered && backgroundRemovedImage == None && mask == None
        && brightness == 0.0 && contrast == 0.0 && saturation == 0.0)
    {
      originalImage := decoded;
      if decoded.None? {
        return false;
      }
      image := decoded;
      isCentered := false;
      backgroundRemovedImage := None;
      mask := None;
      brightness := 0.0;
      contrast := 0.0;
      saturation := 0.0;
      ok := true;
    }

    /** `centerFace`: the first face found in the original image is cropped
        and resized onto the canvas; the result becomes the centred image,
        its unadjusted copy and the shown image, and any removed background
        is discarded. Every failure leaves the object as it was. The print
        layout is kept. */
    method CenterFace(targetWidth: real, targetHeight: real, canvasWidth: real, canvasHeight: real,
                      detect: Image -> Framing.Detections, resample: Framing.Resampler) returns (ok: bool)
      modifies this`centeredImage, this`centeredOriginal, this`image, this`isCentered,
               this`backgroundRemovedImage, this`mask
      ensures var faces := if originalImage.Some? then Framing.DetectFace(detect(originalImage.value)) else [];
        ok <==> (originalImage.Some? && |faces| > 0
          && Framing.FrameFace(originalImage.value, faces[0], targetWidth, targetHeight, canvasWidth, canvasHeight, resample).Some?)
      ensures !ok ==> unchanged(this)
      ensures ok ==>
        var framed := Framing.FrameFace(originalImage.value, Framing.DetectFace(detect(originalImage.value))[0],
                                        targetWidth, targetHeight, canvasWidth, canvasHeight, resample);
        centeredImage == framed && centeredOriginal == framed && image == framed
        && isCentered && backgroundRemovedImage == None && mask == None
    {
      if originalImage.None? {
        return false;
      }
      var source := originalImage.value;
      var faces := Framing.DetectFace(detect(source));
      if |faces| == 0 {
        return false;
      }
      var framed := Framing.FrameFace(source, faces[0], targetWidth, targetHeight, canvasWidth, canvasHeight, resample);
      if framed.None? {
        return false;
      }
      centeredImage := framed;
      centeredOriginal := framed;
      image := framed;
      isCentered := true;
      backgroundRemovedImage := None;
      mask := None;
      ok := true;
    }

    /** What `removeBackgroundWithU2Net` does to the object, with the
        network's result (the masked image and its mask) as a parameter: it
        needs a centred image, then stores the result and shows it. */
    method RemoveBackground(segmented: (Image, Mask)) returns (ok: bool)
      modifies this`backgroundRemovedImage, this`mask, this`image
      ensures ok <==> centeredOriginal.Some? && isCentered
      ensures !ok ==> unchanged(this)
      ensures ok ==> backgroundRemovedImage == Some(segmented.0) && mask == Some(segmented.1) && image == Some(segmented.0)
    {
      if centeredOriginal.None? || !isCentered {
        return false;
      }
      backgroundRemovedImage := Some(segmented.0);
      mask := Some(segmented.1);
      image := Some(segmented.0);
      ok := true;
    }

    /** `applyImageAdjustments`: the shown image is always recomputed from the
        centred image, never from what is shown. */
    method ApplyImageAdjustments(filters: Filters)
      modifies this`image
      ensures centeredImage.None? ==> image == old(image)
      ensures centeredImage.Some? ==> image == Some(Adjust(centeredImage.value, brightness, contrast, saturation, filters))
    {
      if centeredImage.None? {
        return;
      }
      image := Some(Adjust(centeredImage.value, brightness, contrast, saturation, filters));
    }

    /** `adjustImageForPersonalData`: adjustments, then the caption band when
        the data is shown. With neutral settings and no data the shown image
        is the centred image itself. */
    method AdjustImageForPersonalData(showData: bool, ratio: real, filters: Filters)
      modifies this`image
      ensures centeredImage.None? || !isCentered ==> image == old(image)
      ensures centeredImage.Some? && isCentered ==>
        image == Some(WithCaptionBand(Adjust(centeredImage.value, brightness, contrast, saturation, filters), showData, ratio))
      ensures centeredImage.Some? && isCentered && !showData && brightness == 0.0 && contrast == 0.0 && saturation == 0.0 ==>
        image == centeredImage
    {
      if centeredImage.None? || !isCentered {
        return;
      }
      ApplyImageAdjustments(filters);
      AdjustNeutral(centeredImage.value, filters);
      if showData {
        var adjusted := image.value;
        var shift := ShiftAmount(adjusted.Height(), ratio);
        var shifted := ShiftIntoBlank(adjusted, shift);
        if shifted.Some? {
          image := shifted;
        }
      }
    }

    /** `applyBackgroundColor`: the background-removed image recoloured through
        the mask becomes the centred image, and the adjustments are applied
        to it. Without both pieces, with a colour that does not read, or
        with shapes that differ, nothing changes. */
    method ApplyBackgroundColor(filters: Filters)
      modifies this`centeredImage, this`image
      ensures var r := old(Recoloured(backgroundRemovedImage, mask, backgroundColor));
        (r.None? ==> centeredImage == old(centeredImage) && image == old(image))
        && (r.Some? ==> centeredImage == r && image == Some(Adjust(r.value, brightness, contrast, saturation, filters)))
    {
      var r := Recoloured(backgroundRemovedImage, mask, backgroundColor);
      if r.None? {
        return;
      }
      centeredImage := r;
      ApplyImageAdjustments(filters);
    }

    /** The `backgroundColor` setter: a new value is stored and, when a
        background-removed image exists, applied at once. */
    method SetBackgroundColor(value: string, filters: Filters)
      modifies this`backgroundColor, this`centeredImage, this`image
      ensures backgroundColor == value
      ensures old(backgroundColor) == value || backgroundRemovedImage.None? ==>
        centeredImage == old(centeredImage) && image == old(image)
      ensures old(backgroundColor) != value && backgroundRemovedImage.Some? ==>
        var r := old(Recoloured(backgroundRemovedImage, mask, value));
        (r.None? ==> centeredImage == old(centeredImage) && image == old(image))
        && (r.Some? ==> centeredImage == r && image == Some(Adjust(r.value, brightness, contrast, saturation, filters)))
    {
      if backgroundColor != value {
        backgroundColor := value;
        if backgroundRemovedImage.Some? {
          ApplyBackgroundColor(filters);
        }
      }
    }

    method SetBrightness(value: real)
      modifies this`brightness
      ensures brightness == value
    {
      brightness := value;
    }

    method SetContrast(value: real)
      modifies this`contrast
      ensures contrast == value
    {
      contrast := value;
    }

    method SetSaturation(value: real)
      modifies this`saturation
      ensures saturation == value
    {
      saturation := value;
    }

    /** `setCurrent_photo_size`: a size that reads is stored, and the layout
        is cleared only when it replaces a different size. A size that does
        not read changes nothing. */
    method SetCurrentPhotoSize(s: string) returns (ok: bool)
      requires Valid()
      modifies this`currentPhotoSize, this`printLayout
      ensures Valid()
      ensures ok <==> ParseSize(s).Some?
      ensures !ok ==> currentPhotoSize == old(currentPhotoSize) && printLayout == old(printLayout)
      ensures ok ==> currentPhotoSize == ParseSize(s)
      ensures ok ==>
        printLayout == if old(currentPhotoSize).Some? && old(currentPhotoSize) != ParseSize(s) then [] else old(printLayout)
    {
      var size := ParseSize(s);
      if size.None? {
        return false;
      }
      if currentPhotoSize.Some? && currentPhotoSize.value != size.value {
        printLayout := [];
      }
      currentPhotoSize := size;
      ok := true;
    }

    /** `clearLayout`. */
    method ClearLayout()
      modifies this`printLayout
      ensures printLayout == []
    {
      printLayout := [];
    }

    /** The nested row and column loops that append one slot per copy. */
    method FillLayout(g: Layout.Grid, widthMm: real, heightMm: real)
      requires g.cols >= 0 && g.rows >= 0
      modifies this`printLayout
      ensures printLayout == Layout.SheetSlots(g, widthMm, heightMm, g.rows)
    {
      printLayout := [];
      var row := 0;
      while row < g.rows
        invariant 0 <= row <= g.rows
        invariant printLayout == Layout.SheetSlots(g, widthMm, heightMm, row)
      {
        var col := 0;
        while col < g.cols
          invariant 0 <= col <= g.cols
          invariant printLayout == Layout.SheetSlots(g, widthMm, heightMm, row) + Layout.RowSlots(g, widthMm, heightMm, row, col)
        {
          assert Layout.RowSlots(g, widthMm, heightMm, row, col + 1)
            == Layout.RowSlots(g, widthMm, heightMm, row, col) + [Layout.SlotAt(g, widthMm, heightMm, row, col)];
          printLayout := printLayout + [Layout.SlotAt(g, widthMm, heightMm, row, col)];
          col := col + 1;
        }
        row := row + 1;
      }
    }

    /** `adjustPrintLayout`: with a centred image and a selected size, the
        layout becomes the slots of the arrangement, row after row. Without
        them, or with an empty arrangement, the layout is kept. */
    method AdjustPrintLayout() returns (ok: bool)
      requires Valid()
      modifies this`printLayout
      ensures var ready := image.Some? && isCentered && currentPhotoSize.Some?;
        ok <==> (ready
          && Layout.Arrangement(currentPhotoSize.value.widthCm, currentPhotoSize.value.heightCm).cols != 0
          && Layout.Arrangement(currentPhotoSize.value.widthCm, currentPhotoSize.value.heightCm).rows != 0)
      ensures !ok ==> printLayout == old(printLayout)
      ensures ok ==>
        var size := currentPhotoSize.value;
        var g := Layout.Arrangement(size.widthCm, size.heightCm);
        printLayout == Layout.SheetSlots(g, size.widthCm * 10.0, size.heightCm * 10.0, g.rows)
    {
      if image.None? || !isCentered || currentPhotoSize.None? {
        return false;
      }
      var size := currentPhotoSize.value;
      var g := Layout.Arrangement(size.widthCm, size.heightCm);
      if g.cols == 0 || g.rows == 0 {
        return false;
      }
      FillLayout(g, size.widthCm * 10.0, size.heightCm * 10.0);
      ok := true;
    }
  }

  /** With a centred image and a selected size the layout never fails, and
      it holds cols x rows slots in row-major order with at most 8 copies. */
  lemma PrintLayoutAlwaysFilled(size: PhotoSize)
    requires size.widthCm >= 0.0 && size.heightCm >= 0.0
    ensures var g := Layout.Arrangement(size.widthCm, size.heightCm);
      g.cols != 0 && g.rows != 0
      && |Layout.SheetSlots(g, size.widthCm * 10.0, size.heightCm * 10.0, g.rows)| == g.cols * g.rows <= Layout.MAX_COPIES
  {
    var g := Layout.Arrangement(size.widthCm, size.heightCm);
    Layout.ArrangementNeverEmpty(size.widthCm, size.heightCm);
    Layout.SheetSlotsRowMajor(g, size.widthCm * 10.0, size.heightCm * 10.0, g.rows);
  }
}
