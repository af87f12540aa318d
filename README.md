# ImageProcessor — a Dafny model of the ID-photo processor

This project models `ImageProcessor` in `main.py`, the object behind an ID-photo
application. Its slots do the following:

- load a photo;
- find the face and crop the photo around it, resized onto a preview canvas;
- take a background-removal result and recolour the background;
- apply brightness, contrast and saturation;
- shift the picture up to leave room for a caption band;
- read the selected photo size from its catalogue entry;
- pack copies of the photo onto a 152 x 102 mm sheet.

The modules follow the source's steps:

| module | file | what it holds |
|---|---|---|
| `Util` | util.dfy | `Option`, `Min`/`Max`/`Abs`, `int()` on reals (`Trunc`), Python slice-index normalisation |
| `Text` | text.dfy | `str.split`, `str.replace`, `str.strip`, `float()` on unsigned decimal literals |
| `PhotoSizes` | photo_size.dfy | reading "Label - WxHcm" into a width and height in centimetres |
| `Colour` | colour.dfy | reading "#RRGGBB" into a BGR pixel, and writing a pixel back as hex |
| `Raster` | raster.dfy | images as grids, the mask composite, the adjustment stage, the caption-band shift |
| `Framing` | framing.dfy | the face-detection cascade order, the crop window, the resize onto the canvas |
| `Layout` | layout.dfy | the copy-count rules and the slot positions of the print sheet |
| `Processor` | processor.dfy | the `ImageProcessor` class: its fields and one method per slot |

The processor is a class whose fields its methods update. Each method's contract
states the object's new state as a function of its old state and inputs. Those
functions are pure, and the properties the design promises are lemmas about them.

A slot that raises a Python exception is modelled as a method that returns
`false` or does nothing. The state is left exactly as Python leaves it at the
point of the raise. For example, `LoadImage` on an unreadable file still
overwrites the original image, because the assignment in main.py:71 comes before
the `.copy()` that raises.

Floating-point values are Dafny reals, so arithmetic is exact. `int(x)` is
truncation toward zero. Python's `//` with a positive divisor is Dafny's `/`.

Some external inputs are parameters instead of being modelled:

- the decoded image file;
- the Haar-cascade detections (three passes: strict face, permissive face, eyes);
- the `cv2.resize` resampler, as a per-pixel function;
- the pixel arithmetic of `convertScaleAbs` and the HSV saturation round trip, as per-pixel functions;
- the background-removal network's output.

Where the written design and the code differ, the model follows the code.
The exceptions are two corrections, each listed under "## Findings" beside a
member that models the code as written: the crop-window slide and the
8-copy cap. The crop and the print layout of the class use the corrected
rules; "## Left out" names every member that inherits them. The other
differences from the design:

- A photo of at least 6 cm wide or 9 cm high gets one copy. It is not rejected as
  too large, and the "too large" failure at main.py:369-371 cannot be reached
  (`Layout.ArrangementNeverEmpty`).
- Centring a face does not clear the print layout.
- Choosing a size clears the layout only when it replaces a different stored size.
- The background is recoloured with the binary `np.where` branch.
- The caption band is filled with black.

## Model

| member | source | states |
|---|---|---|
| Util.SliceIndex | main.py:272 | a Python slice bound over a length: kept when in range, counted from the end when negative, clamped otherwise |
| Text.IndexOf | main.py:428 | the first position where the separator occurs, or none when it does not occur |
| Text.Split | main.py:428 | `str.split(sep)`: at least one piece, joining the pieces with the separator gives the text back, no piece contains the separator, and every cut is at the first occurrence after the previous cut |
| Text.SplitUnique | main.py:428 | any piece list with those properties is the split itself, so they pin `str.split` down |
| Text.SplitWithout | main.py:428 | splitting on a separator that does not occur gives the text itself as the only piece |
| Text.SplitKeepsOut | main.py:428 | a character absent from the text is absent from every piece |
| Text.Replace | main.py:430-433 | `str.replace` leaves a text without the pattern as it is, and replacing a pattern by itself changes nothing |
| Text.ReplaceKeepsOut | main.py:430-433 | removing "cm" or " - " introduces no character that was not there |
| Text.TrimStart | main.py:430 | `lstrip()`: a suffix of the text that begins with a non-space |
| Text.TrimEnd | main.py:430 | `rstrip()`: a prefix of the text that ends with a non-space |
| Text.Strip | main.py:430-433 | `strip()`: no longer than the text, neither starts nor ends with whitespace, and is empty exactly when the text is all whitespace |
| Text.StripUnpadded | main.py:430 | a text with no surrounding whitespace is left as it is by `strip()` |
| Text.ParseFloat | main.py:435-436 | `float(piece)` on this plain-decimal grammar is never negative |
| Text.ParseFloatLiteral | main.py:435-436 | `float` accepts a piece exactly when the stripped piece is a decimal literal (digits with at most one point, some digit present), and its value is the literal's value |
| PhotoSizes.Dimensions | main.py:428-433 | the piece list the two numbers are read from is never empty |
| PhotoSizes.ParseSize | main.py:425-448 | a size that reads has non-negative width and height |
| PhotoSizes.ParseSizeCharacterised | main.py:428-448 | a size reads exactly when the first two pieces are decimal literals, and it is their two values; otherwise the slot fails |
| PhotoSizes.LabelledSize | main.py:428-436 | "Label - WxHcm" reads as W by H centimetres for any label in which no " - " starts before the separator, such as "Foto-carnet" |
| PhotoSizes.PlainLabelSize | main.py:428-436 | a label without any '-' always qualifies, so "Label - WxHcm" reads as W by H centimetres |
| PhotoSizes.UnlabelledSize | main.py:428-436 | " - WxHcm", an entry without a label, reads as W by H centimetres |
| PhotoSizes.NoSeparatorNoSize | main.py:428-448 | an entry without an 'x' never yields a size |
| Colour.HexDigitValue | main.py:203 | a hexadecimal digit's value is below 16 |
| Colour.TrimLeading | main.py:202 | `lstrip('#')`: a suffix, all of the removed prefix is '#', and what remains does not start with '#' |
| Colour.ParseColour | main.py:202-204 | four or fewer characters after the '#'s leave an empty blue piece, and the colour does not read; the partner is `Colour.ColourRoundTrip` |
| Colour.HexByte | main.py:203 | `int(piece, 16)`: one or two plain hex digits read as their value; a blank piece raises |
| Colour.Slice | main.py:203 | `hex[i:i+2]` has at most two characters |
| Colour.HexPairRoundTrip | main.py:203 | two upper-case hex digits written for a channel read back as that channel |
| Colour.ColourRoundTrip | main.py:202-204 | reading a colour written as "#RRGGBB" gives the same pixel back, in BGR order |
| Colour.SixDigitColour | main.py:202-204 | "#" and six hex digits in either case read as blue from digits 5-6, green from 3-4 and red from 1-2 |
| Raster.Composite | main.py:207-220 | recolouring succeeds exactly when the image and mask have the same shape, and keeps that shape |
| Raster.CompositePerPixel | main.py:218-220 | each pixel is the original where the mask is 1 and the background colour elsewhere |
| Raster.CompositeAllForeground | main.py:218-220 | a mask that is 1 everywhere leaves the image unchanged |
| Raster.RecolourKeepsForeground | main.py:207-220 | two background colours give results that agree exactly at the mask's foreground |
| Raster.RecolourTwice | main.py:207-223 | recolouring a recoloured image through the same mask equals one recolouring with the last colour |
| Raster.MapPixels | main.py:244 | a per-pixel filter keeps the shape, and each output pixel is the filter applied to the input pixel at the same place |
| Raster.Adjust | main.py:233-256 | the adjustment stage keeps the image's shape |
| Raster.AdjustNeutral | main.py:243-258 | with brightness, contrast and saturation all 0 both filters are skipped and the image is unchanged, whatever the filters do |
| Raster.AdjustIsPointwise | main.py:243-256 | an adjusted pixel depends only on the input pixel at the same place |
| Raster.Blank | main.py:271 | `np.zeros_like`: a black image of the given shape |
| Raster.AssignRows | main.py:272 | numpy row-slice assignment: the range is replaced by the source rows when the counts agree, a single source row is broadcast, and mismatched counts raise |
| Raster.CaptionShift | main.py:270-273 | the shifted image has the image's shape |
| Raster.ShiftIntoBlank | main.py:271-273 | the method's row-by-row copy into a black buffer yields exactly the caption shift |
| Raster.CaptionShiftForward | main.py:270-273 | a shift of at least one row never raises: row i of the result is row i + shift of the image, the last shift rows are black, and the shape is kept |
| Raster.CaptionShiftZero | main.py:272 | a shift of 0 makes `[:-0]` an empty target: numpy raises for two or more rows, and a single row is broadcast to nothing |
| Raster.CaptionShiftBackward | main.py:272 | a negative shift -k never raises: Python's negative slice bounds put the last k rows first, and the rest stays black |
| Raster.CaptionShiftTwice | main.py:270-273 | shifting by a and then by b equals one shift by a + b |
| Raster.ShiftAmount | main.py:270 | the caption band is the whole part of `height * ratio / 2.8` rows for a ratio of 0 or more |
| Raster.ShiftAmountRange | main.py:270 | for a ratio in [0, 2.8] the band is 0 to height rows, and at least one row exactly when height x ratio >= 2.8 |
| Framing.DetectFace | main.py:84-100 | no face is found exactly when both face passes find nothing and fewer than two eyes are found; otherwise the face used is the first of the strict pass, else of the permissive pass, else the eye fallback |
| Framing.EyeFallback | main.py:92-98 | the eye fallback is a square three eye-distances wide, centred on the midpoint of the two eyes |
| Framing.FaceHeight | main.py:119 | the window height `int(h * 2.2)` is at least twice the face box's height and at most 2.2 times it |
| Framing.FaceWidth | main.py:120 | the window width follows the target aspect ratio, truncated: within one pixel below `face_height * target_width / target_height` |
| Framing.SlideAsWritten | main.py:122-135 | the window as written is never reversed, and it starts at a negative index only when the extent is longer than the axis, and then it is moved to end at the axis' end |
| Framing.Slide | main.py:122-135 | the corrected window starts at 0 or after and is never reversed, and it is the window as written wherever that one starts at 0 or after, so whenever the extent fits the axis |
| Framing.Window | main.py:119-135 | for a face box of non-negative size the rows and the columns of the window are ordered from 0 || Framing.SlideKeepsExtent | main.py:122-135 | the corrected window keeps its extent (one short only for an odd extent untouched by the edges), or the whole axis when the window is longer than the axis |
| Framing.SlideAsWrittenWrapsAround | main.py:119-137 | the window as written starts at row -10 for a 100-row image with face Box(25, 40, 50, 50), so the crop keeps 10 rows; the corrected window keeps all 100 |
| Framing.Crop | main.py:137 | the crop's height and width are the slice extents of the window |
| Framing.CropPixels | main.py:137 | each crop pixel is the image pixel at the window's offset |
| Framing.ResizeTarget | main.py:139-147 | the resize target is undefined exactly where Python divides by zero: a zero canvas height, an empty crop, or a zero-width crop on a canvas whose aspect ratio is not positive |
| Framing.ResizeFitsCanvas | main.py:139-147 | on a positive canvas and a non-empty crop, the target fits the canvas; one side is the truncated canvas side, and the other follows the crop's aspect ratio to within one pixel |
| Framing.Resize | main.py:149 | the resized image has the requested width and height |
| Framing.FrameFace | main.py:113-149 | a framed photo, when there is one, has positive width and height; it is cut with the corrected slide |
| Framing.FrameFaceFitsCanvas | main.py:139-149 | a framed photo fits the canvas, and one of its sides equals the truncated canvas side |
| Framing.FrameCropExtent | main.py:115-137 | with the corrected slide, the crop is as tall as the face window and as wide as its width (one short for an odd extent), or as tall or as wide as the image when the window is larger |
| Layout.FitCount | main.py:316-324 | on a non-negative length, the count is the largest whose footprint (photos plus 2 mm gaps) fits |
| Layout.FitCountMaximal | main.py:316-324 | the corrected floor estimate is the largest count whose footprint (photos plus 2 mm gaps) fits the usable length, and the correction never fires |
| Layout.BaseGrid | main.py:316-324 | the base columns and rows fit the usable 142 x 92 mm, and one more of either would not |
| Layout.LargePhotoRule | main.py:326-336 | at 5 cm or more on a side, at most 2 x 1 when wider and 1 x 2 when taller, never more than given; smaller photos keep the given counts |
| Layout.SinglePhotoRule | main.py:338-341 | at 6 cm wide or 9 cm high exactly one copy; otherwise the given counts |
| Layout.CapCopies | main.py:344-361 | the cap as written: at most 8 copies, 8 or fewer are left as they are, and more become 4 x 2 or 2 x 4 |
| Layout.CapCopiesWithinFit | main.py:344-361 | the corrected cap: never more columns or rows than given, at most 8 copies, and equal to the cap as written whenever that one stays within the given counts |
| Layout.ArrangementAsWritten | main.py:316-361 | the rules as written give at most 8 copies, and never fewer columns or rows than the corrected arrangement |
| Layout.LargePhotoAtMostTwo | main.py:326-336 | a photo of 5 cm or more on a side gets at most two copies, side by side when wider and stacked when taller |
| Layout.SinglePhotoWins | main.py:338-341 | at 6 cm wide or 9 cm high the arrangement is a single copy |
| Layout.Arrangement | main.py:316-361 | with the corrected cap, column and row counts are never negative, there are at most 8 copies, and outside the single-photo rule no more columns or rows than fit |
| Layout.ArrangementNeverEmpty | main.py:316-371 | for every non-negative size there is at least one copy and at most 8 |
| Layout.ArrangementFitsUsableArea | main.py:288-361 | for a photo that fits the usable area once, the corrected arrangement's block fits the usable 142 x 92 mm |
| Layout.ThreeByFour | main.py:316-361 | a 3 x 4 cm photo gets 4 columns and 2 rows |
| Layout.OversizedPhotoPlacedOnce | main.py:338-341 | a 20 x 20 cm photo gets one copy instead of a failure |
| Layout.CapWidensPastSheet | main.py:344-361 | as written, a 4 x 2.5 cm photo gets 4 x 2 copies whose 166 mm block is wider than the 152 mm sheet; corrected, it gets 3 x 2 |
| Layout.CapAddsRowPastMargin | main.py:344-361 | as written, a 1 x 4.6 cm photo gets a second row, and the 94 mm block exceeds the 92 mm usable height; corrected, it gets 4 x 1 |
| Layout.SlotAt | main.py:393-410 | every slot has the photo's size, and its pixel values are its millimetre values times 300 / 25.4 |
| Layout.RowSlots | main.py:391-411 | one row of the inner loop holds as many slots as columns |
| Layout.SheetSlots | main.py:389-411 | the nested loops give rows x cols slots |
| Layout.SheetSlotsRowMajor | main.py:389-411 | slot k sits at row k / cols and column k % cols |
| Layout.SlotGeometry | main.py:393-410 | neighbours in a row or a column are one photo plus 2 mm apart |
| Layout.BlockCentred | main.py:374-383 | the block of copies is centred on the sheet: equal space before and after on each axis |
| Layout.SlotsWithinSafetyMargins | main.py:287-411 | with the corrected cap, every slot of a photo that fits the usable area once lies within the 5 mm safety margins of the sheet |
| Processor.WithCaptionBand | main.py:269-273 | the image keeps its shape; without the data shown it is the adjusted image; with a band of at least one row, row i is row i + band of the adjusted image |
| Processor.Recoloured | main.py:198-220 | a recoloured image exists only with both a removed-background image and a mask, and has their shape |
| Processor.ImageProcessor.constructor | main.py:37-61 | no images, not centred, empty layout, no size, all adjustments 0, background "#FFFFFF", no mask |
| Processor.ImageProcessor.LoadImage | main.py:69-82 | succeeds exactly for a decoded file and always stores it as the original; on success it resets the shown image, the centring, the removed background, the mask and the adjustments, and on failure it leaves them as they were |
| Processor.ImageProcessor.CenterFace | main.py:103-157 | succeeds exactly when there is an original, a face is found and framing succeeds; on success the framed photo becomes the centred, the unadjusted and the shown image, and the removed background is dropped; failure changes nothing; the crop uses the corrected slide |
| Processor.ImageProcessor.RemoveBackground | main.py:160-194 | needs a centred image; then stores the segmented image and its mask and shows the image; otherwise changes nothing |
| Processor.ImageProcessor.ApplyImageAdjustments | main.py:229-259 | the shown image is the adjustment of the centred image (never of the shown one), or unchanged without a centred image |
| Processor.ImageProcessor.AdjustImageForPersonalData | main.py:262-275 | the shown image is the adjusted centred image, shifted up by the caption band when the data is shown; with neutral settings and no data it is the centred image itself |
| Processor.ImageProcessor.ApplyBackgroundColor | main.py:196-226 | with both pieces, a readable colour and matching shapes, the recoloured image becomes the centred image and its adjustment is shown; otherwise nothing changes |
| Processor.ImageProcessor.SetBackgroundColor | main.py:701-708 | stores the colour; only a changed colour with a removed-background image triggers the recolouring |
| Processor.ImageProcessor.SetBrightness | main.py:662-665 | stores the brightness |
| Processor.ImageProcessor.SetContrast | main.py:672-675 | stores the contrast |
| Processor.ImageProcessor.SetSaturation | main.py:682-685 | stores the saturation |
| Processor.ImageProcessor.SetCurrentPhotoSize | main.py:425-448 | succeeds exactly when the entry reads and then stores that size; clears the layout only when a different size was stored; failure changes nothing |
| Processor.ImageProcessor.ClearLayout | main.py:419-422 | the layout becomes empty |
| Processor.ImageProcessor.FillLayout | main.py:389-411 | the nested loops build exactly the row-major slot sequence of the grid |
| Processor.ImageProcessor.AdjustPrintLayout | main.py:278-416 | succeeds exactly with a shown, centred image, a stored size and a non-empty arrangement; the layout becomes the slots of the arrangement with the corrected cap, and is kept on failure |
| Processor.PrintLayoutAlwaysFilled | main.py:369-411 | with any stored size the layout is never empty and holds cols x rows <= 8 slots |

## Left out

- Qt-only members are not modelled: the signals, the properties' getters, `ImageProvider`, `printImage` and the printer selection.
- The personal-data fields are printing-only and are not modelled: name, last name, RUT, `showCutGuides` and `current_printer`.
- The `canvas_width` and `canvas_height` parameters of `adjustPrintLayout` are unused in the source, so the model has no such parameters.
- The debug `print` calls are not modelled.
- Processor.ImageProcessor.LoadImage: the file URL, `cv2.imread` and the exception raised for an unreadable file become an `Option<Image>` parameter and a `false` result.
- Processor.ImageProcessor.RemoveBackground: the U-2-Net inference, normalisation, thresholding and `bitwise_and` are not modelled. The segmented image and its mask are a parameter.
- Processor.ImageProcessor.RemoveBackground: the mask is modelled as single-channel, with `== 1` as the foreground test of main.py:220. The source stores a three-channel 0/255 mask. `cvtColor` with `GRAY2BGR` on that mask raises in OpenCV, and a 0/255 value never equals 1; neither is modelled.
- Processor.ImageProcessor.ApplyBackgroundColor: the floating-point alpha-blend branch (main.py:210-216) is not modelled. The masks this class stores are 8-bit, so only the binary branch applies.
- Framing.DetectFace: the Haar cascades are not modelled. Their three passes are the `Detections` parameter.
- Framing.Resize: the `INTER_AREA` interpolation is not modelled. Each output pixel comes from the `Resampler` parameter.
- Raster.Adjust: the arithmetic of `convertScaleAbs` and the HSV conversion are not modelled; they are per-pixel parameters. The model states only which filters run, on what, and in which order.
- Text.ParseFloat: accepts unsigned ASCII decimals with at most one point, surrounded by whitespace. Python's `float` also accepts a sign, exponents, `inf`/`nan`, digit underscores and non-ASCII decimal digits; those entries fail here. Catalogue entries hold plain decimals.
- Raster.Composite: a mask whose shape differs from the image's is an error. numpy broadcasts a one-row or one-column mask instead of raising, and that is not modelled.
- Colour.HexByte: rejects a '-' sign and non-ASCII digits that Python's `int(_, 16)` would accept. A negative or non-ASCII channel never comes from the colour picker.
- Floating-point rounding is not modelled: reals are exact. `MM_TO_PX` is exactly 300 / 25.4, and `int(h * 2.2)` is taken on the exact product.
- Framing.Window: uses the corrected slide rule (see Findings), not the one written at main.py:127-135. `Framing.SlideAsWritten` is the rule as written, and `Framing.Slide` states where the two agree.
- Framing.FrameFace: crops with the corrected slide. As written, a 100 x 100 image with face (25, 40, 50, 50) keeps rows 90-99 only; the model keeps all 100 rows.
- Framing.FrameCropExtent: states the extent of the corrected crop. The crop as written can keep fewer rows or columns; `Framing.SlideAsWrittenWrapsAround` shows 10 rows instead of 100.
- Processor.ImageProcessor.CenterFace: stores the crop of `Framing.FrameFace`, so it inherits the corrected slide. The 10-row crop of the example above is not what it stores.
- Layout.Arrangement: uses the corrected cap (see Findings), not the one written at main.py:344-361. `Layout.ArrangementAsWritten` is the rule as written.
- Processor.ImageProcessor.AdjustPrintLayout: lays out `Layout.Arrangement`, so it inherits the corrected cap. For a 4 x 2.5 cm photo it builds 3 x 2 = 6 slots, where the source builds 4 x 2 = 8.

## Findings

| source | as written | input that shows it | evidently intended | confidence | as-written member | corrected member |
|---|---|---|---|---|---|---|
| main.py:344-361 | the 8-copy cap sets 4 x 2 or 2 x 4 whatever the base counts were, so it can add columns or rows that do not fit | a 4 x 2.5 cm photo: base 3 x 3 becomes 4 x 2, a 166 mm block on a 152 mm sheet; a 1 x 4.6 cm photo: base 12 x 1 becomes 4 x 2, a 94 mm block in 92 mm of usable height | cap at 8 copies without exceeding the counts that fit the usable area | high (not executed) | Layout.CapWidensPastSheet | Layout.CapCopiesWithinFit |
| main.py:127-135 | when the window touches the bottom (right) edge it is moved to start at `height - face_height` (`width - face_width`), which is negative when the window is longer than the image, and Python then reads the start as counted from the end | a 100 x 100 image with face (25, 40, 50, 50): face height 110, centre row 65, window rows -10 to 100, so the crop keeps only rows 90-99 | start the moved window at 0 or after, so the crop keeps the whole axis | high (not executed) | Framing.SlideAsWrittenWrapsAround | Framing.Slide |
