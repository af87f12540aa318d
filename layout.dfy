/** The print-sheet packer of `adjustPrintLayout`: how many copies of the
    selected photo go on the 152 x 102 mm sheet, and where each one goes, in
    millimetres and in 300 DPI pixels. Lengths are exact reals. */
module Layout {
  import opened Util

  // The sheet constants, hard-coded in the source.
  const PAPER_WIDTH_MM: real := 152.0
  const PAPER_HEIGHT_MM: real := 102.0
  const MARGIN_SAFETY_MM: real := 5.0
  const USABLE_WIDTH_MM: real := PAPER_WIDTH_MM - 2.0 * MARGIN_SAFETY_MM
  const USABLE_HEIGHT_MM: real := PAPER_HEIGHT_MM - 2.0 * MARGIN_SAFETY_MM
  const DPI: real := 300.0
  const MM_TO_PX: real := DPI / 25.4
  const MARGIN_MM: real := 2.0
  const MAX_COPIES: int := 8

  /** Columns by rows of copies. */
  datatype Grid = Grid(cols: int, rows: int)

  /** Length of `n` photos of `photoMm` with a margin between neighbours. */
  function Footprint(n: int, photoMm: real): real {
    n as real * photoMm + (n - 1) as real * MARGIN_MM
  }

  /** How many photos fit along one side: the floor estimate, less one when
      its footprint still exceeds the usable length. On a length of zero or
      more it is the largest count whose footprint fits. */
  function FitCount(usable: real, photoMm: real): (r: int)
    requires photoMm >= 0.0
    ensures usable >= 0.0 ==> r >= 0 && Footprint(r, photoMm) <= usable < Footprint(r + 1, photoMm)
  {
    var n := ((usable + MARGIN_MM) / (photoMm + MARGIN_MM)).Floor;
    if usable >= 0.0 then
      FloorFits(usable, photoMm, n);
      if Footprint(n, photoMm) > usable then n - 1 else n
    else
      if Footprint(n, photoMm) > usable then n - 1 else n
  }

  lemma MulMonotone(a: real, b: real, c: real)
    requires a <= b && c > 0.0
    ensures a * c <= b * c
  {
  }

  lemma MulStrict(a: real, b: real, c: real)
    requires a < b && c > 0.0
    ensures a * c < b * c
  {
  }

  /** With exact arithmetic the floor estimate is already the largest count
      that fits, so the correction never fires. */
  lemma FitCountMaximal(usable: real, photoMm: real)
    requires photoMm >= 0.0 && usable >= 0.0
    ensures FitCount(usable, photoMm) == ((usable + MARGIN_MM) / (photoMm + MARGIN_MM)).Floor
  {
    var n := ((usable + MARGIN_MM) / (photoMm + MARGIN_MM)).Floor;
    FloorFits(usable, photoMm, n);
    assert FitCount(usable, photoMm) == n;
  }

  /** The floor of how many photo-plus-margin lengths the usable length plus
      one margin holds fits, and one more does not. */
  lemma FloorFits(usable: real, photoMm: real, n: int)
    requires photoMm >= 0.0 && usable >= 0.0
    requires n == ((usable + MARGIN_MM) / (photoMm + MARGIN_MM)).Floor
    ensures n >= 0
    ensures Footprint(n, photoMm) <= usable < Footprint(n + 1, photoMm)
  {
    var x := (usable + MARGIN_MM) / (photoMm + MARGIN_MM);
    assert x * (photoMm + MARGIN_MM) == usable + MARGIN_MM;
    assert 0.0 <= x;
    assert n as real <= x < (n + 1) as real;
    BetweenMultiples(usable, photoMm, n, x);
  }

  /** `n <= x < n + 1` multiples of photo plus margin around the usable
      length plus one margin. */
  lemma BetweenMultiples(usable: real, photoMm: real, n: int, x: real)
    requires photoMm >= 0.0 && 0.0 <= x
    requires x * (photoMm + MARGIN_MM) == usable + MARGIN_MM
    requires n as real <= x < (n + 1) as real
    ensures n >= 0
    ensures Footprint(n, photoMm) <= usable < Footprint(n + 1, photoMm)
  {
    var d := photoMm + MARGIN_MM;
    MulMonotone(n as real, x, d);
    MulStrict(x, (n + 1) as real, d);
    Distribute(n as real, photoMm, MARGIN_MM);
    Distribute((n + 1) as real, photoMm, MARGIN_MM);
  }

  lemma Distribute(a: real, b: real, c: real)
    ensures a * (b + c) == a * b + a * c
  {
  }

  /** The counts before the special rules: the largest that fit the usable area. */
  function BaseGrid(widthCm: real, heightCm: real): (g: Grid)
    requires widthCm >= 0.0 && heightCm >= 0.0
    ensures g.cols >= 0 && g.rows >= 0
    ensures Footprint(g.cols, widthCm * 10.0) <= USABLE_WIDTH_MM < Footprint(g.cols + 1, widthCm * 10.0)
    ensures Footprint(g.rows, heightCm * 10.0) <= USABLE_HEIGHT_MM < Footprint(g.rows + 1, heightCm * 10.0)
  {
    Grid(FitCount(USABLE_WIDTH_MM, widthCm * 10.0), FitCount(USABLE_HEIGHT_MM, heightCm * 10.0))
  }

  /** Photos of 5 cm or more: at most two copies, side by side when the
      photo is at least as wide as it is high, one above the other otherwise. */
  function LargePhotoRule(g: Grid, widthCm: real, heightCm: real): (r: Grid)
    ensures r.cols <= g.cols && r.rows <= g.rows
    ensures g.cols >= 0 && g.rows >= 0 ==> r.cols >= 0 && r.rows >= 0
    ensures widthCm >= 5.0 || heightCm >= 5.0 ==>
      if widthCm >= heightCm then r.cols <= 2 && r.rows <= 1 else r.cols <= 1 && r.rows <= 2
    ensures !(widthCm >= 5.0 || heightCm >= 5.0) ==> r == g
  {
    if widthCm >= 5.0 || heightCm >= 5.0 then
      if widthCm >= heightCm then Grid(Min(g.cols, 2), Min(g.rows, 1))
      else Grid(Min(g.cols, 1), Min(g.rows, 2))
    else g
  }

  /** Photos 6 cm wide or 9 cm high: exactly one copy. */
  function SinglePhotoRule(g: Grid, widthCm: real, heightCm: real): (r: Grid)
    ensures widthCm >= 6.0 || heightCm >= 9.0 ==> r.cols == 1 && r.rows == 1
    ensures !(widthCm >= 6.0 || heightCm >= 9.0) ==> r == g
  {
    if widthCm >= 6.0 || heightCm >= 9.0 then Grid(1, 1) else g
  }

  /** The copy cap as written: more than 8 copies become 4 x 2 or 2 x 4.
      No grid it returns has more than 8 copies. */
  function CapCopies(g: Grid): (r: Grid)
    ensures r.cols * r.rows <= MAX_COPIES
    ensures g.cols * g.rows <= MAX_COPIES ==> r == g
    ensures g.cols * g.rows > MAX_COPIES ==> r == Grid(4, 2) || r == Grid(2, 4)
  {
    if g.cols * g.rows > MAX_COPIES then
      if g.cols > 4 then Grid(4, 2)
      else if g.rows > 4 then Grid(2, 4)
      else if g.cols * g.rows > MAX_COPIES then (if g.cols >= g.rows then Grid(4, 2) else Grid(2, 4))
      else g
    else g
  }

  /** The copy cap of `CapCopies`, kept within the counts it is given: it
      never adds a column or a row, keeps to 8 copies, and changes nothing
      where the cap as written already stays within the given counts. */
  function CapCopiesWithinFit(g: Grid): (r: Grid)
    ensures r.cols <= g.cols && r.rows <= g.rows
    ensures g.cols >= 0 && g.rows >= 0 ==> r.cols >= 0 && r.rows >= 0 && r.cols * r.rows <= MAX_COPIES
    ensures CapCopies(g).cols <= g.cols && CapCopies(g).rows <= g.rows ==> r == CapCopies(g)
  {
    var c := CapCopies(g);
    var r := Grid(Min(c.cols, g.cols), Min(c.rows, g.rows));
    if g.cols >= 0 && g.rows >= 0 then
      ProductShrinks(r.cols, r.rows, c.cols, c.rows);
      r
    else
      r
  }

  lemma ProductShrinks(a: int, b: int, c: int, d: int)
    requires 0 <= a <= c && 0 <= b <= d
    ensures a * b <= c * d
  {
    MulIntMonotone(a, c, b);
    MulIntMonotone(b, d, c);
  }

  /** Lines 316-361 as written. It has at most 8 copies and never fewer
      columns or rows than the corrected arrangement. */
  function ArrangementAsWritten(widthCm: real, heightCm: real): (g: Grid)
    requires widthCm >= 0.0 && heightCm >= 0.0
    ensures g.cols * g.rows <= MAX_COPIES
    ensures Arrangement(widthCm, heightCm).cols <= g.cols && Arrangement(widthCm, heightCm).rows <= g.rows
  {
    CapCopies(SinglePhotoRule(LargePhotoRule(BaseGrid(widthCm, heightCm), widthCm, heightCm), widthCm, heightCm))
  }

  /** The arrangement the model prints: the same rules with the cap kept
      within the counts that fit. It has at most 8 copies and, outside the
      single-photo rule, no more columns or rows than fit. */
  function Arrangement(widthCm: real, heightCm: real): (g: Grid)
    requires widthCm >= 0.0 && heightCm >= 0.0
    ensures g.cols >= 0 && g.rows >= 0 && g.cols * g.rows <= MAX_COPIES
    ensures !(widthCm >= 6.0 || heightCm >= 9.0) ==>
      g.cols <= BaseGrid(widthCm, heightCm).cols && g.rows <= BaseGrid(widthCm, heightCm).rows
  {
    CapCopiesWithinFit(SinglePhotoRule(LargePhotoRule(BaseGrid(widthCm, heightCm), widthCm, heightCm), widthCm, heightCm))
  }

  /** A photo of 6 cm width or 9 cm height gets exactly one copy, whatever
      the 5 cm rule said. */
  lemma SinglePhotoWins(widthCm: real, heightCm: real)
    requires widthCm >= 0.0 && heightCm >= 0.0
    requires widthCm >= 6.0 || heightCm >= 9.0
    ensures Arrangement(widthCm, heightCm) == Grid(1, 1)
    ensures ArrangementAsWritten(widthCm, heightCm) == Grid(1, 1)
  {
  }

  /** A photo of 5 cm or more gets at most two copies, along its longer side. */
  lemma LargePhotoAtMostTwo(widthCm: real, heightCm: real)
    requires widthCm >= 0.0 && heightCm >= 0.0
    requires widthCm >= 5.0 || heightCm >= 5.0
    ensures var g := Arrangement(widthCm, heightCm);
      if widthCm >= heightCm then g.cols <= 2 && g.rows <= 1 else g.cols <= 1 && g.rows <= 2
    ensures ArrangementAsWritten(widthCm, heightCm) == Arrangement(widthCm, heightCm)
  {
    var b := BaseGrid(widthCm, heightCm);
    var l := LargePhotoRule(b, widthCm, heightCm);
    var s := SinglePhotoRule(l, widthCm, heightCm);
    assert 0 <= s.cols <= 2 && 0 <= s.rows <= 2 && (s.cols <= 1 || s.rows <= 1);
    SmallProduct(s);
    assert CapCopies(s) == s;
  }

  lemma SmallProduct(g: Grid)
    requires 0 <= g.cols <= 2 && 0 <= g.rows <= 2 && (g.cols <= 1 || g.rows <= 1)
    ensures g.cols * g.rows <= 2
  {
    if g.cols <= 1 {
      MulIntMonotone(g.cols, 1, g.rows);
    } else {
      MulIntMonotone(g.rows, 1, g.cols);
    }
  }

  /** Both counts are at least 1, so the "too large for the paper" failure
      can never be reached; there are never more than 8 copies. */
  lemma ArrangementNeverEmpty(widthCm: real, heightCm: real)
    requires widthCm >= 0.0 && heightCm >= 0.0
    ensures var g := Arrangement(widthCm, heightCm);
      1 <= g.cols && 1 <= g.rows && g.cols * g.rows <= MAX_COPIES
    ensures var g := ArrangementAsWritten(widthCm, heightCm);
      1 <= g.cols && 1 <= g.rows && g.cols * g.rows <= MAX_COPIES
  {
    var b := BaseGrid(widthCm, heightCm);
    if !(widthCm >= 6.0 || heightCm >= 9.0) {
      // The photo is under 6 x 9 cm, so one copy fits each way.
      assert Footprint(1, widthCm * 10.0) <= USABLE_WIDTH_MM;
      assert Footprint(1, heightCm * 10.0) <= USABLE_HEIGHT_MM;
      FootprintMonotone(b.cols + 1, 1, widthCm * 10.0);
      FootprintMonotone(b.rows + 1, 1, heightCm * 10.0);
    }
    var r := SinglePhotoRule(LargePhotoRule(b, widthCm, heightCm), widthCm, heightCm);
  }

  lemma FootprintMonotone(m: int, n: int, photoMm: real)
    requires photoMm >= 0.0
    requires Footprint(m, photoMm) > Footprint(n, photoMm)
    ensures m > n
  {
    if m <= n {
      MulMonotone(m as real, n as real, photoMm + MARGIN_MM);
      assert false;
    }
  }

  lemma FootprintGrows(m: int, n: int, photoMm: real)
    requires photoMm >= 0.0 && m <= n
    ensures Footprint(m, photoMm) <= Footprint(n, photoMm)
  {
    MulMonotone(m as real, n as real, photoMm + MARGIN_MM);
  }

  /** With the corrected cap, a photo that fits the usable area once is
      laid out within it: the block never needs more than the usable length. */
  lemma ArrangementFitsUsableArea(widthCm: real, heightCm: real)
    requires widthCm >= 0.0 && heightCm >= 0.0
    requires widthCm * 10.0 <= USABLE_WIDTH_MM && heightCm * 10.0 <= USABLE_HEIGHT_MM
    ensures Footprint(Arrangement(widthCm, heightCm).cols, widthCm * 10.0) <= USABLE_WIDTH_MM
    ensures Footprint(Arrangement(widthCm, heightCm).rows, heightCm * 10.0) <= USABLE_HEIGHT_MM
  {
    var b := BaseGrid(widthCm, heightCm);
    FootprintMonotone(b.cols + 1, 1, widthCm * 10.0);
    FootprintMonotone(b.rows + 1, 1, heightCm * 10.0);
    var r := SinglePhotoRule(LargePhotoRule(b, widthCm, heightCm), widthCm, heightCm);
    assert r.cols <= b.cols && r.rows <= b.rows;
    var g := Arrangement(widthCm, heightCm);
    FootprintGrows(g.cols, b.cols, widthCm * 10.0);
    FootprintGrows(g.rows, b.rows, heightCm * 10.0);
  }

  /** A 3 x 4 cm photo: 4 columns by 2 rows. */
  lemma ThreeByFour()
    ensures Arrangement(3.0, 4.0) == Grid(4, 2)
    ensures ArrangementAsWritten(3.0, 4.0) == Grid(4, 2)
  {
    assert (144.0 / 32.0).Floor == 4;
    assert (94.0 / 42.0).Floor == 2;
  }

  /** A photo larger than the usable area is still placed, once. */
  lemma OversizedPhotoPlacedOnce()
    ensures Arrangement(20.0, 20.0) == Grid(1, 1)
  {
  }

  /** The cap as written can widen a grid past the sheet: a 4 x 2.5 cm photo
      fits 3 x 3, the cap turns that into 4 x 2, and four columns need 166 mm
      on a 152 mm sheet. */
  lemma CapWidensPastSheet()
    ensures BaseGrid(4.0, 2.5) == Grid(3, 3)
    ensures ArrangementAsWritten(4.0, 2.5) == Grid(4, 2)
    ensures Footprint(4, 40.0) == 166.0 > PAPER_WIDTH_MM
    ensures Arrangement(4.0, 2.5) == Grid(3, 2)
  {
    assert (144.0 / 42.0).Floor == 3;
    assert (94.0 / 27.0).Floor == 3;
  }

  /** The cap as written can add a row that does not fit: a 1 x 4.6 cm photo
      fits 12 x 1, the cap turns that into 4 x 2, and two rows need 94 mm of
      the 92 mm usable height. */
  lemma CapAddsRowPastMargin()
    ensures BaseGrid(1.0, 4.6) == Grid(12, 1)
    ensures ArrangementAsWritten(1.0, 4.6) == Grid(4, 2)
    ensures Footprint(2, 46.0) == 94.0 > USABLE_HEIGHT_MM
    ensures Arrangement(1.0, 4.6) == Grid(4, 1)
  {
    assert (144.0 / 12.0).Floor == 12;
    assert (94.0 / 48.0).Floor == 1;
  }

  /** One copy on the sheet. */
  datatype Slot = Slot(
    x: real, y: real, width: real, height: real,                         // 300 DPI pixels
    xCanvas: real, yCanvas: real, widthCanvas: real, heightCanvas: real) // millimetres

  /** Where the block of `n` photos starts so that it is centred on a sheet
      side of length `paper`. */
  function Start(paper: real, n: int, photoMm: real): real {
    (paper - Footprint(n, photoMm)) / 2.0
  }

  /** The slot at `row`, `col`: the photo's size, with its pixel values its
      millimetre values at 300 DPI. */
  function SlotAt(g: Grid, widthMm: real, heightMm: real, row: int, col: int): (s: Slot)
    ensures s.widthCanvas == widthMm && s.heightCanvas == heightMm
    ensures s.x == s.xCanvas * MM_TO_PX && s.y == s.yCanvas * MM_TO_PX
    ensures s.width == s.widthCanvas * MM_TO_PX && s.height == s.heightCanvas * MM_TO_PX
  {
    var xMm := Start(PAPER_WIDTH_MM, g.cols, widthMm) + col as real * (widthMm + MARGIN_MM);
    var yMm := Start(PAPER_HEIGHT_MM, g.rows, heightMm) + row as real * (heightMm + MARGIN_MM);
    Slot(xMm * MM_TO_PX, yMm * MM_TO_PX, widthMm * MM_TO_PX, heightMm * MM_TO_PX, xMm, yMm, widthMm, heightMm)
  }

  /** The first `n` slots of row `row`. */
  function RowSlots(g: Grid, widthMm: real, heightMm: real, row: int, n: nat): (r: seq<Slot>)
    ensures |r| == n
  {
    seq(n, col => SlotAt(g, widthMm, heightMm, row, col))
  }

  /** The slots of the first `rows` rows, row after row. */
  function SheetSlots(g: Grid, widthMm: real, heightMm: real, rows: nat): (r: seq<Slot>)
    requires g.cols >= 0
    ensures |r| == rows * g.cols
  {
    if rows == 0 then [] else SheetSlots(g, widthMm, heightMm, rows - 1) + RowSlots(g, widthMm, heightMm, rows - 1, g.cols)
  }

  lemma RowMajorIndex(k: int, r: int, c: int)
    requires c > 0 && 0 <= r && r * c <= k < (r + 1) * c
    ensures k / c == r && k % c == k - r * c
  {
    var q, m := k / c, k % c;
    assert k == q * c + m && 0 <= m < c;
    if q < r {
      MulIntMonotone(q + 1, r, c);
      assert false;
    } else if q > r {
      MulIntMonotone(r + 1, q, c);
      assert false;
    }
  }

  lemma MulIntMonotone(a: int, b: int, c: int)
    requires a <= b && c >= 0
    ensures a * c <= b * c
  {
  }

  /** The slots come in row-major order: slot `k` is row `k / cols`,
      column `k % cols`, and there are `cols * rows` of them. */
  lemma {:induction false} SheetSlotsRowMajor(g: Grid, widthMm: real, heightMm: real, rows: nat)
    requires g.cols >= 1
    ensures forall k :: 0 <= k < rows * g.cols ==>
      SheetSlots(g, widthMm, heightMm, rows)[k] == SlotAt(g, widthMm, heightMm, k / g.cols, k % g.cols)
  {
    if rows > 0 {
      SheetSlotsRowMajor(g, widthMm, heightMm, rows - 1);
      var before := SheetSlots(g, widthMm, heightMm, rows - 1);
      var all := SheetSlots(g, widthMm, heightMm, rows);
      assert |before| == (rows - 1) * g.cols;
      forall k | 0 <= k < rows * g.cols
        ensures all[k] == SlotAt(g, widthMm, heightMm, k / g.cols, k % g.cols)
      {
        if k >= (rows - 1) * g.cols {
          RowMajorIndex(k, rows - 1, g.cols);
        }
      }
    }
  }

  /** Neighbours in a row are one photo and one margin apart, and likewise
      neighbours in a column. */
  lemma SlotGeometry(g: Grid, widthMm: real, heightMm: real, row: int, col: int)
    ensures SlotAt(g, widthMm, heightMm, row, col + 1).xCanvas - SlotAt(g, widthMm, heightMm, row, col).xCanvas
      == widthMm + MARGIN_MM
    ensures SlotAt(g, widthMm, heightMm, row + 1, col).yCanvas - SlotAt(g, widthMm, heightMm, row, col).yCanvas
      == heightMm + MARGIN_MM
  {
  }

  /** The block is centred on the whole sheet: the gap left of the first
      column equals the gap right of the last, and likewise vertically. */
  lemma BlockCentred(g: Grid, widthMm: real, heightMm: real, row: int, col: int)
    ensures SlotAt(g, widthMm, heightMm, row, 0).xCanvas
      == PAPER_WIDTH_MM - (SlotAt(g, widthMm, heightMm, row, g.cols - 1).xCanvas + widthMm)
    ensures SlotAt(g, widthMm, heightMm, 0, col).yCanvas
      == PAPER_HEIGHT_MM - (SlotAt(g, widthMm, heightMm, g.rows - 1, col).yCanvas + heightMm)
  {
    assert Footprint(g.cols, widthMm) == (g.cols - 1) as real * (widthMm + MARGIN_MM) + widthMm;
    assert Footprint(g.rows, heightMm) == (g.rows - 1) as real * (heightMm + MARGIN_MM) + heightMm;
  }

  /** Along one side: the `i`-th of `n` photos lies within the safety margins
      when the block fits the usable length. */
  lemma AxisWithinMargins(paper: real, n: int, photoMm: real, i: int)
    requires photoMm >= 0.0 && 0 <= i < n
    requires Footprint(n, photoMm) <= paper - 2.0 * MARGIN_SAFETY_MM
    ensures MARGIN_SAFETY_MM <= Start(paper, n, photoMm) + i as real * (photoMm + MARGIN_MM)
    ensures Start(paper, n, photoMm) + i as real * (photoMm + MARGIN_MM) + photoMm <= paper - MARGIN_SAFETY_MM
  {
    MulMonotone(i as real, (n - 1) as real, photoMm + MARGIN_MM);
    assert Footprint(n, photoMm) == (n - 1) as real * (photoMm + MARGIN_MM) + photoMm;
  }

  /** A slot of a block that fits the usable area lies inside the safety
      margins. */
  lemma SlotWithinMargins(g: Grid, widthMm: real, heightMm: real, row: int, col: int)
    requires widthMm >= 0.0 && heightMm >= 0.0 && 0 <= row < g.rows && 0 <= col < g.cols
    requires Footprint(g.cols, widthMm) <= USABLE_WIDTH_MM && Footprint(g.rows, heightMm) <= USABLE_HEIGHT_MM
    ensures var s := SlotAt(g, widthMm, heightMm, row, col);
      MARGIN_SAFETY_MM <= s.xCanvas && s.xCanvas + s.widthCanvas <= PAPER_WIDTH_MM - MARGIN_SAFETY_MM
      && MARGIN_SAFETY_MM <= s.yCanvas && s.yCanvas + s.heightCanvas <= PAPER_HEIGHT_MM - MARGIN_SAFETY_MM
  {
    AxisWithinMargins(PAPER_WIDTH_MM, g.cols, widthMm, col);
    AxisWithinMargins(PAPER_HEIGHT_MM, g.rows, heightMm, row);
  }

  /** With the corrected cap and a photo that fits the usable area once, every
      slot lies inside the safety margins. */
  lemma SlotsWithinSafetyMargins(widthCm: real, heightCm: real, row: int, col: int)
    requires widthCm >= 0.0 && heightCm >= 0.0
    requires widthCm * 10.0 <= USABLE_WIDTH_MM && heightCm * 10.0 <= USABLE_HEIGHT_MM
    requires 0 <= row < Arrangement(widthCm, heightCm).rows && 0 <= col < Arrangement(widthCm, heightCm).cols
    ensures var s := SlotAt(Arrangement(widthCm, heightCm), widthCm * 10.0, heightCm * 10.0, row, col);
      MARGIN_SAFETY_MM <= s.xCanvas && s.xCanvas + s.widthCanvas <= PAPER_WIDTH_MM - MARGIN_SAFETY_MM
      && MARGIN_SAFETY_MM <= s.yCanvas && s.yCanvas + s.heightCanvas <= PAPER_HEIGHT_MM - MARGIN_SAFETY_MM
  {
    ArrangementFitsUsableArea(widthCm, heightCm);
    SlotWithinMargins(Arrangement(widthCm, heightCm), widthCm * 10.0, heightCm * 10.0, row, col);
  }
}
