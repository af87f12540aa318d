/** Images as height x width grids of BGR pixels, and the pixel-level steps
    of the processor: recolouring the background through a binary mask,
    the brightness / contrast / saturation stage, and the caption-band
    shift that moves the picture up into a black image. */
module Raster {
  import opened Util

  /** One 8-bit channel. */
  type Byte = x: int | 0 <= x < 256

  /** One pixel in OpenCV's blue, green, red order. */
  datatype Pixel = Pixel(b: Byte, g: Byte, r: Byte)

  const BLACK: Pixel := Pixel(0, 0, 0)

  /** A height x width array: `cells[i][j]` is row `i`, column `j`. The width
      is kept apart so that an image with no rows still has one. */
  datatype Grid<T> = Grid(width: nat, cells: seq<seq<T>>) {
    predicate Valid() {
      forall i :: 0 <= i < |cells| ==> |cells[i]| == width
    }

    function Height(): nat {
      |cells|
    }
  }

  /** A three-channel 8-bit image. */
  type Image = g: Grid<Pixel> | g.Valid() witness Grid(0, [])

  /** A single-channel 8-bit mask. */
  type Mask = g: Grid<Byte> | g.Valid() witness Grid(0, [])

  predicate SameShape<S, T>(a: Grid<S>, b: Grid<T>) {
    a.width == b.width && a.Height() == b.Height()
  }

  // ---------------------------------------------------------------------
  // Background recolouring

  /** `np.where(mask == 1, image, background)` over a mask replicated to three
      channels: a pixel whose mask value is 1 is kept, every other pixel
      becomes the background colour. A mask of another shape is an error
      here; numpy raises for most such shapes, and its broadcasting of a
      one-row or one-column mask is not modelled. */
  function Composite(img: Image, mask: Mask, background: Pixel): (r: Option<Image>)
    ensures r.Some? <==> SameShape(img, mask)
    ensures r.Some? ==> SameShape(r.value, img)
  {
    if !SameShape(img, mask) then None
    else
      var out: Image := Grid(img.width, seq(img.Height(), i requires 0 <= i < img.Height() =>
        seq(img.width, j requires 0 <= j < img.width =>
          if mask.cells[i][j] == 1 then img.cells[i][j] else background)));
      Some(out)
  }

  /** Each pixel of the result is chosen on its own: the original where the
      mask is 1, the background colour elsewhere. */
  lemma CompositePerPixel(img: Image, mask: Mask, background: Pixel, i: int, j: int)
    requires SameShape(img, mask) && 0 <= i < img.Height() && 0 <= j < img.width
    ensures Composite(img, mask, background).value.cells[i][j]
      == if mask.cells[i][j] == 1 then img.cells[i][j] else background
  {
  }

  /** A mask that is 1 everywhere keeps the whole image. */
  lemma CompositeAllForeground(img: Image, mask: Mask, background: Pixel)
    requires SameShape(img, mask)
    requires forall i, j :: 0 <= i < mask.Height() && 0 <= j < mask.width ==> mask.cells[i][j] == 1
    ensures Composite(img, mask, background) == Some(img)
  {
    var out := Composite(img, mask, background).value;
    forall i | 0 <= i < img.Height() ensures out.cells[i] == img.cells[i] {
    }
    assert out.cells == img.cells;
  }

  /** Changing the background colour changes only the pixels outside the
      mask: the two results agree exactly where the mask is 1. */
  lemma RecolourKeepsForeground(img: Image, mask: Mask, c1: Pixel, c2: Pixel, i: int, j: int)
    requires SameShape(img, mask) && 0 <= i < img.Height() && 0 <= j < img.width
    requires c1 != c2
    ensures Composite(img, mask, c1).value.cells[i][j] == Composite(img, mask, c2).value.cells[i][j]
      <==> mask.cells[i][j] == 1
  {
  }

  /** Recolouring an already recoloured image through the same mask is the
      same as recolouring the original. */
  lemma RecolourTwice(img: Image, mask: Mask, c1: Pixel, c2: Pixel)
    requires SameShape(img, mask)
    ensures Composite(Composite(img, mask, c1).value, mask, c2) == Composite(img, mask, c2)
  {
    var once := Composite(img, mask, c1).value;
    var twice := Composite(once, mask, c2).value;
    var direct := Composite(img, mask, c2).value;
    forall i | 0 <= i < img.Height() ensures twice.cells[i] == direct.cells[i] {
    }
    assert twice.cells == direct.cells;
  }

  // ---------------------------------------------------------------------
  // Brightness, contrast and saturation

  /** The two OpenCV filters, pixel by pixel: `convertScaleAbs` with a gain
      and an offset, and the HSV round trip that scales saturation. Their
      arithmetic is not modelled; only where they are applied is. */
  datatype Filters = Filters(scaleAbs: (Pixel, real, real) -> Pixel, saturate: (Pixel, real) -> Pixel)

  function MapPixels(img: Image, f: Pixel -> Pixel): (r: Image)
    ensures SameShape(r, img)
    ensures forall i, j :: 0 <= i < r.Height() && 0 <= j < r.width ==> r.cells[i][j] == f(img.cells[i][j])
  {
    Grid(img.width, seq(img.Height(), i requires 0 <= i < img.Height() =>
      seq(img.width, j requires 0 <= j < img.width => f(img.cells[i][j]))))
  }

  /** The adjustment stage: the gain/offset filter only when brightness or
      contrast is non-zero, then the saturation filter only when saturation
      is non-zero. */
  function Adjust(img: Image, brightness: real, contrast: real, saturation: real, filters: Filters): (r: Image)
    ensures SameShape(r, img)
  {
    var c := contrast / 100.0;
    var scaled := if brightness != 0.0 || c != 0.0 then MapPixels(img, p => filters.scaleAbs(p, 1.0 + c, brightness)) else img;
    if saturation != 0.0 then MapPixels(scaled, p => filters.saturate(p, 1.0 + saturation / 100.0)) else scaled
  }

  /** Neutral settings leave the image as it is, whatever the filters do. */
  lemma AdjustNeutral(img: Image, filters: Filters)
    ensures Adjust(img, 0.0, 0.0, 0.0, filters) == img
  {
  }

  /** Each output pixel depends only on the input pixel at the same place
      and on the settings. */
  lemma AdjustIsPointwise(a: Image, b: Image, brightness: real, contrast: real, saturation: real,
                          filters: Filters, i: int, j: int)
    requires SameShape(a, b) && 0 <= i < a.Height() && 0 <= j < a.width
    requires a.cells[i][j] == b.cells[i][j]
    ensures Adjust(a, brightness, contrast, saturation, filters).cells[i][j]
         == Adjust(b, brightness, contrast, saturation, filters).cells[i][j]
  {
  }

  // ---------------------------------------------------------------------
  // The caption-band shift

  function BlankRow(width: nat): (row: seq<Pixel>)
    ensures |row| == width
  {
    seq(width, _ => BLACK)
  }

  /** `np.zeros_like` of a `height` x `width` image. */
  function Blank(width: nat, height: nat): (r: Image)
    ensures r.width == width && r.Height() == height
    ensures forall i :: 0 <= i < height ==> r.cells[i] == BlankRow(width)
  {
    Grid(width, seq(height, _ => BlankRow(width)))
  }

  /** The rows of `dst[lo:hi] = src`, numpy broadcasting a single source row
      over the target rows; a source of any other length raises. */
  function AssignRows(dst: seq<seq<Pixel>>, lo: nat, hi: nat, src: seq<seq<Pixel>>): (r: Option<seq<seq<Pixel>>>)
    requires lo <= hi <= |dst|
    ensures r.Some? <==> |src| == hi - lo || |src| == 1
    ensures r.Some? ==> |r.value| == |dst|
    ensures r.Some? ==> forall k :: 0 <= k < |dst| ==>
      r.value[k] == if k < lo || hi <= k then dst[k] else if |src| == hi - lo then src[k - lo] else src[0]
  {
    if |src| == hi - lo then Some(dst[..lo] + src + dst[hi..])
    else if |src| == 1 then Some(dst[..lo] + seq(hi - lo, _ => src[0]) + dst[hi..])
    else None
  }

  /** `black[:-shift, :] = image[shift:, :]` on a black image of the same
      shape, with Python's slice normalisation on both sides; None where
      numpy raises because the two slices disagree in length. */
  function CaptionShift(img: Image, shift: int): (r: Option<Image>)
    ensures r.Some? ==> SameShape(r.value, img)
  {
    var h := img.Height();
    var src := img.cells[SliceIndex(h, shift)..];
    match AssignRows(Blank(img.width, h).cells, 0, SliceIndex(h, -shift), src)
    case None => None
    case Some(cells) =>
      assert forall k :: 0 <= k < |src| ==> src[k] == img.cells[SliceIndex(h, shift) + k];
      var out: Image := Grid(img.width, cells);
      Some(out)
  }

  /** The caption shift into a zero-filled row buffer. */
  method ShiftIntoBlank(img: Image, shift: int) returns (r: Option<Image>)
    ensures r == CaptionShift(img, shift)
  {
    var h := img.Height();
    var hi := SliceIndex(h, -shift);
    var start := SliceIndex(h, shift);
    var n := h - start;
    if n != hi && n != 1 {
      return None;
    }
    var buffer := new seq<Pixel>[h](_ => BlankRow(img.width));
    if n == hi {
      var i := 0;
      while i < hi
        invariant 0 <= i <= hi
        invariant forall k :: 0 <= k < i ==> buffer[k] == img.cells[start + k]
        invariant forall k :: i <= k < h ==> buffer[k] == BlankRow(img.width)
      {
        buffer[i] := img.cells[start + i];
        i := i + 1;
      }
    }
    // Otherwise the one source row is broadcast over an empty target.
    var expected := CaptionShift(img, shift);
    assert forall k :: 0 <= k < h ==> buffer[k] == expected.value.cells[k];
    assert buffer[..] == expected.value.cells;
    var out: Image := Grid(img.width, buffer[..]);
    r := Some(out);
  }

  /** A shift of at least one row moves row `i + shift` to row `i` and leaves
      the last `shift` rows black; the image keeps its shape. */
  lemma CaptionShiftForward(img: Image, shift: int)
    requires shift >= 1
    ensures CaptionShift(img, shift).Some?
    ensures SameShape(CaptionShift(img, shift).value, img)
    ensures forall i :: 0 <= i < img.Height() - shift ==> CaptionShift(img, shift).value.cells[i] == img.cells[i + shift]
    ensures forall i :: Max(img.Height() - shift, 0) <= i < img.Height() ==>
      CaptionShift(img, shift).value.cells[i] == BlankRow(img.width)
  {
  }

  /** A zero shift writes into an empty slice: numpy accepts it only when the
      source has at most one row, and the result is then all black. */
  lemma CaptionShiftZero(img: Image)
    ensures img.Height() >= 2 ==> CaptionShift(img, 0) == None
    ensures img.Height() <= 1 ==> CaptionShift(img, 0) == Some(Blank(img.width, img.Height()))
  {
    if img.Height() <= 1 {
      assert CaptionShift(img, 0).value.cells == Blank(img.width, img.Height()).cells;
    }
  }

  /** A negative shift `-k` wraps around: the last `k` rows come first and
      the rest is black. */
  lemma CaptionShiftBackward(img: Image, shift: int)
    requires shift < 0
    ensures CaptionShift(img, shift).Some?
    ensures forall i :: 0 <= i < Min(-shift, img.Height()) ==>
      CaptionShift(img, shift).value.cells[i] == img.cells[Max(img.Height() + shift, 0) + i]
    ensures forall i :: Min(-shift, img.Height()) <= i < img.Height() ==>
      CaptionShift(img, shift).value.cells[i] == BlankRow(img.width)
  {
  }

  /** Two forward shifts are one shift by their sum. */
  lemma CaptionShiftTwice(img: Image, a: int, b: int)
    requires a >= 1 && b >= 1
    ensures CaptionShift(img, a).Some?
    ensures CaptionShift(CaptionShift(img, a).value, b) == CaptionShift(img, a + b)
  {
    CaptionShiftForward(img, a);
    var once := CaptionShift(img, a).value;
    CaptionShiftForward(once, b);
    CaptionShiftForward(img, a + b);
    var twice := CaptionShift(once, b).value;
    var direct := CaptionShift(img, a + b).value;
    forall i | 0 <= i < img.Height() ensures twice.cells[i] == direct.cells[i] {
      if i < img.Height() - (a + b) {
        assert twice.cells[i] == once.cells[i + b];
      }
    }
    assert twice.cells == direct.cells;
  }

  /** `int(height * ratio / 2.80)`: the number of rows the caption band
      takes, the whole part of `height * ratio / 2.8`. */
  function ShiftAmount(height: nat, ratio: real): (r: int)
    ensures ratio >= 0.0 ==>
      0 <= r && r as real <= height as real * ratio / 2.8 < r as real + 1.0
  {
    Trunc(height as real * ratio / 2.8)
  }

  /** For a ratio in [0, 2.8] the band is between 0 and the whole height, and
      it is at least one row exactly when `height * ratio >= 2.8`. */
  lemma ShiftAmountRange(height: nat, ratio: real)
    requires 0.0 <= ratio <= 2.8
    ensures 0 <= ShiftAmount(height, ratio) <= height
    ensures ShiftAmount(height, ratio) >= 1 <==> height as real * ratio >= 2.8
  {
    var x := height as real * ratio / 2.8;
    assert height as real * ratio <= height as real * 2.8;
    assert x <= height as real;
  }
}
