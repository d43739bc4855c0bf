# HDR exposure-stack conditioning and anti-ghosting, modelled in Dafny

This project models the core of LuminanceHDR's `HdrCreationManager`
(`src/HdrWizard/HdrCreationManager.cpp`). That class collects a stack of
exposures of one scene, keeps their exposure times, crops and shifts them,
and removes "ghosts", meaning objects that moved between exposures. The
modules follow the parts of that file:

- `Hsl`: `rgb2hsl` and `hsl2rgb` over exact reals. This includes the
  round trip between them, and the hue the legacy `hsl2rgb` loses (see
  Findings). The copy and blend passes use `hsl2rgb` as written, so their
  contracts describe what the program does to pure-red pixels. The
  corrected conversion, `Hsl2RgbWrapped`, is proved about separately.
- `Pixels`: the float channel buffers and the constants `max_rgb`,
  `max_lightness` and `gridSize`. It also holds the per-pixel step shared by
  `copyPatch` and the float `blend`: scale the lightness, cap it, convert
  back and clamp.
- `Stats`: the stack reductions `findIndex`, `hueMean`, `hueSquaredMean`,
  `maxLightness` and `averageLightness`.
- `Patches`: the patch grid and its operations. `comparePatches` counts the
  pixels whose log ratios stray from the exposure difference. `copyPatch`
  and `copyPatches` paste the reference's rescaled cell into the other
  items.
- `Blending`: the float `blend` of manual anti-ghosting, driven by two
  painted masks.
- `Calibration`: `checkEVvalues` and `setEV` on exposure values.
- `Ghosting` and `AntiGhosting`: the steps of `doAutoAntiGhostingMDR`, and
  the stack loop of `doAntiGhosting`.
- `Raster`: the QImages the manager holds (8-bit inputs, previews of float
  inputs, anti-ghosting masks) as immutable values, with `qAlpha`, the
  transparent fill and `QImage::copy(rect)`.
- `Manager`: the class `HdrCreationManager`. Its fields are the lists the
  source keeps. Its methods cover admitting a loaded input (`ldrReady`,
  `mdrReady`, `newResult`, the size checks), `removeFile`, cropping,
  applying alignment shifts, and the two anti-ghosting entry points.

## How the model is represented

- A float channel (`pfs::Array2Df`) is an `array2<real>` indexed
  `c[x, y]`. The passes that write pixels work in place on these arrays,
  as the source does.
- Exposure times are kept as exposure values: `log2` of the time, or
  `Missing` for the `-1` of a file without EXIF data.
- `logf` on pixel values is the function parameter `ln`.
- Some loops read every pixel of the stack. The methods for them take a
  ghost snapshot of what those pixels determine, and a predicate ties the
  snapshot to the buffers:
  - `PlanesOf` holds the lightness planes;
  - `HuesOf` holds the hue cube.
- `Stats.CubeHues` shows that such a hue snapshot always exists.
  `Stats.HuesUnique` shows that the buffers determine it.

## Model

| member | source | states |
|---|---|---|
| Hsl.Max3 | src/HdrWizard/HdrCreationManager.cpp:207-208 | v is at least every component and equals one of them |
| Hsl.Min3 | src/HdrWizard/HdrCreationManager.cpp:209-210 | m is at most every component and equals one of them |
| Hsl.Trunc | src/HdrWizard/HdrCreationManager.cpp:249 | the `(int)` cast of a non-negative value is its floor |
| Hsl.Rgb2Hsl | src/HdrWizard/HdrCreationManager.cpp:201-230 | lightness is the midpoint of the largest and smallest component; a gray (or black) pixel gets hue and saturation 0 |
| Hsl.HueRange | src/HdrWizard/HdrCreationManager.cpp:220-229 | every hue rgb2hsl produces lies in [0, 1] |
| Hsl.HueTimesSixRange | src/HdrWizard/HdrCreationManager.cpp:220-228 | the hue offset 6h of a chromatic colour lies in [0, 6] |
| Hsl.HexValueRecovered | src/HdrWizard/HdrCreationManager.cpp:239 | the `v` hsl2rgb rebuilds from rgb2hsl's saturation and lightness is the input's largest component |
| Hsl.HexValueDark | src/HdrWizard/HdrCreationManager.cpp:239 | for lightness at most one half, l(1 + s) gives back the largest component |
| Hsl.HexValueBright | src/HdrWizard/HdrCreationManager.cpp:239 | for lightness above one half, l + s - ls gives back the largest component |
| Hsl.RedLargestRebuilt | src/HdrWizard/HdrCreationManager.cpp:223-224 | when red is largest, walking the hue wheel at 6h gives back the colour |
| Hsl.GreenLargestRebuilt | src/HdrWizard/HdrCreationManager.cpp:225-226 | the same when green is largest |
| Hsl.BlueLargestRebuilt | src/HdrWizard/HdrCreationManager.cpp:227-228 | the same when blue is largest |
| Hsl.SextantSpan | src/HdrWizard/HdrCreationManager.cpp:254-286 | every sextant's colour has largest component v and smallest m |
| Hsl.Hsl2Rgb | src/HdrWizard/HdrCreationManager.cpp:233-288 | hsl2rgb as written: a non-positive hexcone value, and h = 1 (sextant 6, which no case handles), both give the gray (l, l, l) |
| Hsl.AsWrittenBelowOne | src/HdrWizard/HdrCreationManager.cpp:249-286 | for every hue below 1 the written conversion is the one with sextant 6 wrapped to 0 |
| Hsl.PureRedAtOne | src/HdrWizard/HdrCreationManager.cpp:220-224 | rgb2hsl puts every pure-red colour (red largest, green and blue both smallest) at h = 1 |
| Hsl.RoundTrip | src/HdrWizard/HdrCreationManager.cpp:201-288 | hsl2rgb, with sextant 6 wrapped to 0, inverts rgb2hsl on every chromatic colour |
| Hsl.RoundTripAsWritten | src/HdrWizard/HdrCreationManager.cpp:254-286 | the legacy hsl2rgb inverts rgb2hsl exactly when the colour is not a pure-red hue (red largest, green and blue both smallest) |
| Hsl.PureRedLosesHue | src/HdrWizard/HdrCreationManager.cpp:224 | (1, 0, 0) maps to hue 1; the legacy hsl2rgb turns that into gray (0.5, 0.5, 0.5), the wrapped one gives back (1, 0, 0) |
| Hsl.LightnessKept | src/HdrWizard/HdrCreationManager.cpp:233-288 | rgb2hsl of the as-written hsl2rgb output has the lightness that was asked for, sextant 6 included |
| Hsl.WrappedLightnessKept | src/HdrWizard/HdrCreationManager.cpp:233-288 | the same for the conversion with sextant 6 wrapped to 0 |
| Pixels.ClampRgb | src/HdrWizard/HdrCreationManager.cpp:523-529 | the clamped channel lies in [0, max_rgb] and is unchanged when already there |
| Pixels.Recolored | src/HdrWizard/HdrCreationManager.cpp:518-521 | lightness scaled and capped, hue and saturation kept, converted back by the as-written hsl2rgb; a gray or pure-red pixel comes back as the gray of the scaled lightness |
| Pixels.Rescale | src/HdrWizard/HdrCreationManager.cpp:518-529 | the rescaled pixel (as-written hsl2rgb, then clamped) is always in range, and equals the unclamped recolouring whenever that is in range |
| Pixels.RescaleSetsLightness | src/HdrWizard/HdrCreationManager.cpp:518-521 | when no clamping is needed, the rescaled pixel's lightness is the old lightness times sf, capped at the limit |
| Pixels.RescaleGray | src/HdrWizard/HdrCreationManager.cpp:518-529 | a gray pixel stays gray, at its clamped scaled lightness |
| Pixels.RescalePureRed | src/HdrWizard/HdrCreationManager.cpp:518-529 | as written, a pure-red pixel is rescaled to the clamped gray of its scaled lightness |
| Pixels.RedPixelTurnsGray | src/HdrWizard/HdrCreationManager.cpp:518-529 | (1000, 0, 0) with factor 1 is written back as (500, 500, 500) |
| Stats.FindIndex | src/HdrWizard/HdrCreationManager.cpp:290-299 | the result is the first index holding the maximum |
| Stats.FirstMaxUnique | src/HdrWizard/HdrCreationManager.cpp:290-299 | only one index is the first maximum |
| Stats.HueMean | src/HdrWizard/HdrCreationManager.cpp:301-308 | the result is the mean of the hues |
| Stats.MeanBounds | src/HdrWizard/HdrCreationManager.cpp:301-308 | the mean lies between any lower and upper bound of the values |
| Stats.MeanOfConstant | src/HdrWizard/HdrCreationManager.cpp:301-308 | the mean of equal values is that value |
| Stats.CubeHues | src/HdrWizard/HdrCreationManager.cpp:320-328 | the hue planes of the stack's images agree pixel by pixel with the buffers' hues |
| Stats.HuesUnique | src/HdrWizard/HdrCreationManager.cpp:320-328 | two hue cubes of the same buffers are equal |
| Stats.StackHues | src/HdrWizard/HdrCreationManager.cpp:322-328 | the `hues` buffer holds the hue of every item at (x, y), in item order |
| Stats.PixelDeviation | src/HdrWizard/HdrCreationManager.cpp:329-334 | the squared distance of item k's hue from the mean hue at (x, y) |
| Stats.RowDeviation | src/HdrWizard/HdrCreationManager.cpp:321-335 | the sum of item k's squared hue deviations along one row |
| Stats.StackDeviation | src/HdrWizard/HdrCreationManager.cpp:320-336 | the sum of item k's squared hue deviations over the whole image |
| Stats.HueSquaredMean | src/HdrWizard/HdrCreationManager.cpp:310-338 | the result is item k's ghost score: its squared hue deviation per pixel |
| Stats.GhostScoreNonNegative | src/HdrWizard/HdrCreationManager.cpp:310-338 | no ghost score is negative |
| Stats.UniformStackScoresZero | src/HdrWizard/HdrCreationManager.cpp:310-338 | in a stack of identical images every item scores 0 |
| Stats.MaxLightness | src/HdrWizard/HdrCreationManager.cpp:363-379 | the result is the running maximum of the pixel lightnesses, starting from 0 |
| Stats.PlaneMaxIsMax | src/HdrWizard/HdrCreationManager.cpp:363-379 | that maximum is at least 0 and every lightness, and is 0 or some pixel's lightness |
| Stats.AverageLightness | src/HdrWizard/HdrCreationManager.cpp:381-397 | the result is the mean lightness of the image |
| Stats.MeanAtMostMax | src/HdrWizard/HdrCreationManager.cpp:363-397 | the average lightness never exceeds the maximum lightness |
| Stats.PlaneMeanOfConstant | src/HdrWizard/HdrCreationManager.cpp:381-397 | an image of uniform lightness averages to that lightness |
| Patches.Abs | src/HdrWizard/HdrCreationManager.cpp:448-451 | the absolute value is non-negative and is x or -x |
| Patches.LogOffsetSwap | src/HdrWizard/HdrCreationManager.cpp:448-451 | a channel deviates from the exposure difference by as much when the two pixels swap and the difference changes sign |
| Patches.ComparePatches | src/HdrWizard/HdrCreationManager.cpp:424-459 | the verdict is true exactly when the share of straying pixels in cell (i, j) exceeds the threshold |
| Patches.StraysSymmetric | src/HdrWizard/HdrCreationManager.cpp:435-451 | one pixel strays the same whichever image comes first, once deltaEV changes sign |
| Patches.GhostedSymmetric | src/HdrWizard/HdrCreationManager.cpp:424-459 | a cell's verdict does not change when the two images swap and deltaEV is negated |
| Patches.GhostedLocal | src/HdrWizard/HdrCreationManager.cpp:433-446 | the verdict depends only on the pixels inside the cell |
| Patches.ConsistentCellNotGhosted | src/HdrWizard/HdrCreationManager.cpp:448-458 | a cell whose log ratios all stay within 0.7·|deltaEV| of the exposure difference is never ghosted |
| Patches.BoxStraysAtMost | src/HdrWizard/HdrCreationManager.cpp:449-453 | no more pixels stray than the cell holds |
| Patches.NoGhostAboveOne | src/HdrWizard/HdrCreationManager.cpp:455-458 | with a threshold of 1 or more no cell is ghosted |
| Patches.RowLightness | src/HdrWizard/HdrCreationManager.cpp:508-511 | the lightnesses of one row of a cell, summed |
| Patches.CellAverage | src/HdrWizard/HdrCreationManager.cpp:505-513 | avgL is the cell's mean lightness |
| Patches.DarkCellInactive | src/HdrWizard/HdrCreationManager.cpp:514 | a black cell is never copied |
| Patches.InCellByDivision | src/HdrWizard/HdrCreationManager.cpp:507-508 | a pixel lies in cell (i, j) exactly when x / gridX == i and y / gridY == j |
| Patches.RecolorRow | src/HdrWizard/HdrCreationManager.cpp:517-534 | one row of the cell gets the rescaled source pixels; every other pixel is unchanged |
| Patches.RecolorCell | src/HdrWizard/HdrCreationManager.cpp:516-535 | the cell's pixels become the rescaled source pixels; the rest are unchanged |
| Patches.CopyPatch | src/HdrWizard/HdrCreationManager.cpp:501-536 | copyPatch writes the rescaled cell exactly when the source cell's mean lightness is in (0, max_lightness); otherwise nothing changes |
| Patches.CopyFlaggedCell | src/HdrWizard/HdrCreationManager.cpp:574-577 | the cell is copied exactly when it is flagged and the reference cell is active |
| Patches.CopyGridRow | src/HdrWizard/HdrCreationManager.cpp:573-578 | one row of cells: every replaced pixel of that row is rescaled, the rest are unchanged |
| Patches.CopyGrid | src/HdrWizard/HdrCreationManager.cpp:572-579 | every replaced pixel is the rescaled reference pixel; every other pixel is unchanged |
| Patches.CopyPatches | src/HdrWizard/HdrCreationManager.cpp:563-581 | every item but h0 gets the reference's rescaled pixels where a flagged active cell covers them; h0 and all other pixels are unchanged |
| Blending.Weight | src/HdrWizard/HdrCreationManager.cpp:716-717 | alpha lies in [0, 1], and is 1 exactly when the good mask is opaque, or it is clear and the item's mask is opaque |
| Blending.BlendPixel | src/HdrWizard/HdrCreationManager.cpp:715 | where both masks are clear the pixel is unchanged |
| Blending.MixBetween | src/HdrWizard/HdrCreationManager.cpp:741-743 | every blended channel lies between the two inputs |
| Blending.MixSame | src/HdrWizard/HdrCreationManager.cpp:741-743 | blending a value with itself gives that value |
| Blending.OpaqueTakesGood | src/HdrWizard/HdrCreationManager.cpp:716-743 | a fully opaque weight replaces the pixel by the rescaled good pixel |
| Blending.GoodMaskDecides | src/HdrWizard/HdrCreationManager.cpp:716-717 | once the good mask is painted, the item's own mask does not matter |
| Blending.BlendMatchedPixel | src/HdrWizard/HdrCreationManager.cpp:727-743 | a pixel already equal to the rescaled good pixel is left as it is |
| Blending.BlendKeepsRange | src/HdrWizard/HdrCreationManager.cpp:733-743 | a pixel in [0, max_rgb] stays there after blending |
| Blending.BlendRow | src/HdrWizard/HdrCreationManager.cpp:713-744 | row j of the item is blended pixel by pixel; every other row is unchanged |
| Blending.BlendRows | src/HdrWizard/HdrCreationManager.cpp:711-745 | every pixel of the item is blended with the good pixel under the two masks |
| Blending.Blend | src/HdrWizard/HdrCreationManager.cpp:689-751 | sf is the ratio of the two average lightnesses; the cap is the larger of the two maxima; every pixel is blended |
| Calibration.TopEvIsMax | src/HdrWizard/HdrCreationManager.cpp:1158-1165 | max is at least -20 and every EV, and is -20 or some item's EV |
| Calibration.BottomEvIsMin | src/HdrWizard/HdrCreationManager.cpp:1158-1165 | min is at most 20 and every EV, and is 20 or some item's EV |
| Calibration.Shifted | src/HdrWizard/HdrCreationManager.cpp:1166-1179 | every exposure value moves down by d, and every other entry becomes undefined (exp2f of NaN) |
| Calibration.EvBounds | src/HdrWizard/HdrCreationManager.cpp:1158-1165 | the first loop yields that max and min |
| Calibration.CalibratedKeepsDifferences | src/HdrWizard/HdrCreationManager.cpp:1166-1179 | calibration keeps every difference between two EVs |
| Calibration.CalibratedKinds | src/HdrWizard/HdrCreationManager.cpp:1166-1179 | an entry keeps an EV exactly when it had one, and a Missing entry survives only when nothing shifts |
| Calibration.CalibratedInRange | src/HdrWizard/HdrCreationManager.cpp:1166-1179 | when the EVs span at most 20, afterwards they all lie in [-10, 10] |
| Calibration.CalibratedIdempotent | src/HdrWizard/HdrCreationManager.cpp:1156-1181 | calibrating twice is calibrating once (span at most 20) |
| Calibration.CalibratedTopAtLimit | src/HdrWizard/HdrCreationManager.cpp:1167-1172 | when the largest EV exceeds 10, afterwards some item sits at 10 |
| Calibration.CalibratedBottomAtLimit | src/HdrWizard/HdrCreationManager.cpp:1173-1178 | otherwise, when the smallest is below -10, afterwards some item sits at -10 |
| Ghosting.DeltaEv | src/HdrWizard/HdrCreationManager.cpp:1670 | deltaEV is a number exactly when both times are known; it is 0 exactly when they are equal, and positive exactly when the reference's EV is larger |
| Ghosting.DeltaEvSwap | src/HdrWizard/HdrCreationManager.cpp:1670 | swapping the two items negates deltaEV |
| Ghosting.VerdictSwap | src/HdrWizard/HdrCreationManager.cpp:1670-1673 | comparing h0 with h or h with h0 gives the same verdict |
| Ghosting.FlaggedByOne | src/HdrWizard/HdrCreationManager.cpp:1665-1678 | a cell is flagged exactly when some item other than h0 is ghosted there against h0 |
| Ghosting.ReferenceAloneFlagsNothing | src/HdrWizard/HdrCreationManager.cpp:1665-1667 | a stack of one item flags no cell |
| Ghosting.AverageLightnesses | src/HdrWizard/HdrCreationManager.cpp:1646-1649 | avgLightness[i] is item i's mean lightness |
| Ghosting.HueScores | src/HdrWizard/HdrCreationManager.cpp:1651-1654 | HE[i] is item i's hue ghost score |
| Ghosting.ScaleFactors | src/HdrWizard/HdrCreationManager.cpp:1659-1663 | scaleFactor[i] times the reference's average is item i's average (all 0 when that average is 0), and the reference's own factor is 1 |
| Ghosting.GridCellInside | src/HdrWizard/HdrCreationManager.cpp:1636-1637 | with gridX = width / gridSize, every cell lies inside the image |
| Ghosting.FlagRow | src/HdrWizard/HdrCreationManager.cpp:1669-1676 | one row of cells: a flag is set where item h is ghosted against h0, and set flags stay set |
| Ghosting.FlagItem | src/HdrWizard/HdrCreationManager.cpp:1668-1677 | every cell where item h is ghosted against h0 gets flagged; set flags stay set |
| Ghosting.FlagGhosts | src/HdrWizard/HdrCreationManager.cpp:1665-1678 | afterwards a cell is flagged exactly when it was, or some item is ghosted there |
| AntiGhosting.BlendItem | src/HdrWizard/HdrCreationManager.cpp:1606-1614 | item idx is blended with the good item under the two masks |
| AntiGhosting.BlendStack | src/HdrWizard/HdrCreationManager.cpp:1603-1616 | every item but the good one is blended with the good item as it was before the loop; the good item is unchanged |
| AntiGhosting.ReferenceItem | src/HdrWizard/HdrCreationManager.cpp:1651-1657 | h0 is the first item with the largest hue ghost score |
| AntiGhosting.ScaleFactorsOf | src/HdrWizard/HdrCreationManager.cpp:1646-1663 | each factor takes the reference's mean lightness to the item's |
| AntiGhosting.FlagGrid | src/HdrWizard/HdrCreationManager.cpp:1640-1678 | the grid starts clear, and a pixel is then replaceable exactly when the pass corrects it |
| AntiGhosting.CorrectGhosts | src/HdrWizard/HdrCreationManager.cpp:1665-1686 | every non-reference pixel in a flagged active cell becomes the reference pixel scaled by the item's factor; nothing else changes |
| AntiGhosting.AutoAntiGhost | src/HdrWizard/HdrCreationManager.cpp:1630-1687 | h0 is the first maximum of the hue scores; the factors scale to h0's average; exactly the corrected pixels of the other items are replaced |
| Raster.Blank | src/HdrWizard/HdrCreationManager.cpp:894-895 | the new mask is a valid w x h image |
| Raster.BlankTransparent | src/HdrWizard/HdrCreationManager.cpp:895 | every pixel of the new mask has alpha 0 |
| Raster.Copy | src/HdrWizard/HdrCreationManager.cpp:1321 | the copy has the rectangle's size; each pixel is the one the rectangle covers, or 0 outside the image |
| Raster.CopyOfBlank | src/HdrWizard/HdrCreationManager.cpp:1395-1402 | cutting a transparent mask gives a transparent mask of the rectangle's size |
| Raster.CopyInsideKeepsPixels | src/HdrWizard/HdrCreationManager.cpp:1321 | inside the image, the copy's pixel (x, y) is the source pixel at the rectangle's offset |
| Raster.ShiftPicture | src/HdrWizard/HdrCreationManager.cpp:1278-1280 | the moved picture is valid and keeps the size |
| Manager.BaseName | src/HdrWizard/HdrCreationManager.cpp:963-967 | the file name holds no '/' and is no longer than the path |
| Manager.BaseNameIsTail | src/HdrWizard/HdrCreationManager.cpp:963-967 | the file name is the path's tail, and when it is shorter than the path a '/' precedes it |
| Manager.BaseNameOfName | src/HdrWizard/HdrCreationManager.cpp:963-967 | a path without '/' is its own file name |
| Manager.Cropped | src/HdrWizard/HdrCreationManager.cpp:1319-1326 | every image of the list is replaced by its copy(ca), in order, and stays valid |
| Manager.RotateCropped | src/HdrWizard/HdrCreationManager.cpp:1319-1326 | one step of taking the head and appending its copy turns k steps into k + 1, so after all of them the list is cropped in place order |
| Manager.RotateRepeat | src/HdrWizard/HdrCreationManager.cpp:1395-1402 | the same rotation, appending one fixed mask each time, ends with that mask everywhere |
| Manager.Cut | src/HdrWizard/HdrCreationManager.cpp:1347-1352 | pfs::cut yields a fresh channel of the requested size |
| Manager.Shift | src/HdrWizard/HdrCreationManager.cpp:1297-1305 | pfs::shift yields a fresh channel of the source's size |
| Manager.CroppedContents | src/HdrWizard/HdrCreationManager.cpp:1319-1326 | every cropped image has the rectangle's size and the pixels copy(rect) takes |
| Manager.CroppedBlanks | src/HdrWizard/HdrCreationManager.cpp:1395-1402 | cropping transparent masks gives transparent masks of the rectangle's size |
| Manager.ShiftByZero | src/HdrWizard/HdrCreationManager.cpp:1273-1277 | skipping a zero offset is the same as shifting by it |
| Manager.ChannelCropMismatch | src/HdrWizard/HdrCreationManager.cpp:1333-1336 | the channel size cropMDR computes is one column and one row short of copy(ca)'s size |
| Manager.HdrCreationManager.constructor | src/HdrWizard/HdrCreationManager.cpp:755-767 | unknown input type, no error, no threads, no files, size 0 x 0, all lists empty |
| Manager.HdrCreationManager.NewResult | src/HdrWizard/HdrCreationManager.cpp:948-972 | one thread fewer and one file more; a renamed file is scheduled for removal; the time is stored; a missing time adds the file's line to filesLackingExif |
| Manager.HdrCreationManager.LdrsHaveSameSize | src/HdrWizard/HdrCreationManager.cpp:974-989 | true exactly when every loaded 8-bit image is w x h |
| Manager.HdrCreationManager.MdrsHaveSameSize | src/HdrWizard/HdrCreationManager.cpp:991-1012 | true exactly when every fully loaded channel triple is w x h |
| Manager.HdrCreationManager.LdrReady | src/HdrWizard/HdrCreationManager.cpp:911-946 | a pending error changes nothing; an 8-bit image after float frames, or of another size, sets the error and leaves every list and counter as it was; otherwise it fills its slot, gets a transparent mask outside the command line, and newResult runs (time stored, a renamed file scheduled for removal, a missing time adding its EXIF line) |
| Manager.HdrCreationManager.StoreLdr | src/HdrWizard/HdrCreationManager.cpp:933-939 | the image fills slot index and, outside the command line, a transparent mask of its size does too |
| Manager.HdrCreationManager.MdrReady | src/HdrWizard/HdrCreationManager.cpp:869-909 | a pending error changes nothing; a float frame after 8-bit images, or of another size, sets the error and leaves every list, size and counter as it was; otherwise preview, mask, channels and size are stored and newResult runs (time stored, a renamed file scheduled for removal, a missing time adding its EXIF line) |
| Manager.HdrCreationManager.AdmitMdr | src/HdrWizard/HdrCreationManager.cpp:885-905 | the stack becomes a float stack; the frame is stored with newResult's bookkeeping exactly when its size matches, and otherwise the error is set and nothing else changes |
| Manager.HdrCreationManager.AcceptMdr | src/HdrWizard/HdrCreationManager.cpp:892-905 | the admitted frame's slot is filled, and newResult's bookkeeping is done: counters, time, the renamed file scheduled for removal and the EXIF line for a missing time |
| Manager.HdrCreationManager.StoreMdr | src/HdrWizard/HdrCreationManager.cpp:892-903 | preview and transparent mask (outside the command line), stack size and channels of slot index are stored |
| Manager.HdrCreationManager.RemoveFile | src/HdrWizard/HdrCreationManager.cpp:189-195 | the item at idx leaves m_data; the others keep their order |
| Manager.HdrCreationManager.CheckEvValues | src/HdrWizard/HdrCreationManager.cpp:1156-1181 | the exposure times become their calibration: shifted so that the largest EV is at most 10, or else the smallest at least -10 |
| Manager.HdrCreationManager.ShiftAll | src/HdrWizard/HdrCreationManager.cpp:1168-1178 | one loop of checkEVvalues: every exposure time moves down by d and nothing else changes |
| Manager.HdrCreationManager.SetEv | src/HdrWizard/HdrCreationManager.cpp:1183-1192 | the time of idx becomes 2^ev; setting a missing time drops the first line of filesLackingExif |
| Manager.HdrCreationManager.CropAgMasks | src/HdrWizard/HdrCreationManager.cpp:1619-1628 | every mask is replaced by its copy(ca), in the same order |
| Manager.HdrCreationManager.CropLdr | src/HdrWizard/HdrCreationManager.cpp:1316-1328 | every 8-bit image and every mask is replaced by its copy(ca), in the same order |
| Manager.HdrCreationManager.CutChannels | src/HdrWizard/HdrCreationManager.cpp:1347-1352 | every channel of a list is replaced by a fresh w x h one |
| Manager.HdrCreationManager.CutAllChannels | src/HdrWizard/HdrCreationManager.cpp:1346-1368 | the R, G and B lists all get fresh w x h channels |
| Manager.HdrCreationManager.CropPreviews | src/HdrWizard/HdrCreationManager.cpp:1370-1399 | every preview is replaced by its copy(ca), in order, and every mask by a transparent w x h mask |
| Manager.HdrCreationManager.CropMdrTo | src/HdrWizard/HdrCreationManager.cpp:1346-1402 | channels of the given size, previews cut to ca, transparent masks of ca's size, and the recorded stack size |
| Manager.HdrCreationManager.CropMdrAsWritten | src/HdrWizard/HdrCreationManager.cpp:1330-1403 | as written: all three channel lists hold fresh (w-1) x (h-1) channels and m_mdrWidth x m_mdrHeight is (w-1) x (h-1), while the previews are copy(ca) at the full w x h and the masks transparent w x h |
| Manager.HdrCreationManager.CropMdr | src/HdrWizard/HdrCreationManager.cpp:1330-1403 | corrected: channels, previews and masks all take the rectangle's size |
| Manager.HdrCreationManager.ApplyShiftsToImageStack | src/HdrWizard/HdrCreationManager.cpp:1267-1284 | every 8-bit image with a nonzero offset is replaced by its shifted copy; the others stay |
| Manager.HdrCreationManager.ApplyShiftsToMdrImageStack | src/HdrWizard/HdrCreationManager.cpp:1286-1313 | every channel triple with a nonzero offset is replaced by fresh channels of the same size; the others stay |
| Manager.HdrCreationManager.DoAntiGhosting | src/HdrWizard/HdrCreationManager.cpp:1602-1616 | every float item but the good one is blended with the good item under its mask and the good item's mask; the good item is unchanged |
| Manager.HdrCreationManager.DoAutoAntiGhostingMdr | src/HdrWizard/HdrCreationManager.cpp:1630-1687 | the reference is the first maximum of the hue scores; every other item's pixels in flagged active cells become the reference's, rescaled to the item's average lightness; nothing else changes |

## Left out

- Thread start-up, signals (`emit`), `qDebug` output, file I/O and the removal of temporary files are not modelled. Loader threads hand their results to the model as method arguments.
- Alignment (`align_with_mtb`, `align_with_ais`), `createHdr`, `setFileList`, `loadFiles` and the configuration setters are outside the core.
- `m_data` items carry only their file name. The frame, preview and average luminance stored for each item are not modelled.
- The 8-bit (QImage) overloads of `hueSquaredMean`, `averageLightness`, `comparePatches`, `copyPatch`, `copyPatches` and `blend` are not modelled. Neither is `doAutoAntiGhostingLDR`.
- Manager.HdrCreationManager.DoAntiGhosting: only the float branch (:1602-1616) is modelled. The 8-bit branch calls the QImage `blend`, which is not part of this model.
- Manager.HdrCreationManager.DoAutoAntiGhostingMdr: the stack must be at least 40 x 40 pixels. Below that the source's cell size is 0, and comparePatches divides 0 by 0. The resulting NaN never exceeds the threshold, so nothing is flagged. That NaN path is not modelled.
- Floating point is not modelled. Channels and lightness are exact reals, with no rounding, no infinities and no NaN.
- Where the source divides by a value that may be 0, the model gives 0. This covers:
  - the saturation denominator when max + min = 2;
  - the scale factors when the reference's average lightness is 0;
  - the averages of an empty image.
- Undefined `deltaEV` is modelled. When an exposure time is unknown, `deltaEV` is NaN. `comparePatches` then counts no pixel, and the model shows the same behaviour.
- `logf` of a pixel value is the uninterpreted function `ln`. `logf` of an exposure time is its EV times the constant ln 2 to 16 digits.
- Calibration.Calibrated: an exposure time of 0 is not modelled. Its log2f is minus infinity, and it gets no special case.
- Manager.Cut and Manager.Shift stand in for `pfs::cut` and `pfs::shift`. Each yields fresh channels of the right size; their pixel contents are not modelled.
- Raster.ShiftPicture: `shiftQImage` is not part of this model. The stand-in assumes a translation that fills with 0 where nothing moves in; Manager.ShiftByZero is a fact about that stand-in, not about `shiftQImage`.
- Manager.HdrCreationManager.ApplyShiftsToMdrImageStack: the shifted pixel values are not stated, only the fresh arrays and their sizes.
- Manager.HdrCreationManager.CropMdrTo: the cut channels' contents are not stated, only their sizes. `swap` into the old objects is modelled as new arrays placed in the list.
- The counted "Copied patches" percentage is not modelled. It is only printed.
- Alignment offsets come from the caller as a sequence; the model does not read a `QList<QPair<int,int>>` itself.
- A `QImage` allocation cannot fail in the model. The source's `exit(1)` on a NULL copy is not modelled.

## Findings

| source | as written | input that shows it | evidently intended | confidence | as-written member | corrected member |
|---|---|---|---|---|---|---|
| src/HdrWizard/HdrCreationManager.cpp:249-286 | `hsl2rgb` switches on sextant 0..5 only. For h = 1 the sextant is 6, no case matches, and the pixel stays gray at its lightness. | rgb2hsl(1, 0, 0) gives h = 1, s = 1, l = 0.5, which hsl2rgb turns into (0.5, 0.5, 0.5). Every pure-red hue (red largest, green and blue equal) loses its colour the same way, and so does every such pixel copyPatch or blend rescales: (1000, 0, 0) with factor 1 is written back as (500, 500, 500). | Sextant 6 is the same hue as sextant 0, so the colour wheel wraps. | high, not executed | Hsl.RoundTripAsWritten, Hsl.PureRedLosesHue, Pixels.RedPixelTurnsGray | Hsl.Hsl2RgbWrapped, Hsl.RoundTrip |
| src/HdrWizard/HdrCreationManager.cpp:1333-1336 | `cropMDR` takes the channel size as x_br - x_ul and y_br - y_ul from `QRect::getCoords`, whose bottom-right corner is inclusive. | With ca = (0, 0, 100, 80), the channels become 99 x 79 while the previews and masks (`copy(ca)`) are 100 x 80, and m_mdrWidth is 99. | Channels the size of the selection, matching previews and masks. | medium, not executed | Manager.HdrCreationManager.CropMdrAsWritten, Manager.ChannelCropMismatch | Manager.HdrCreationManager.CropMdr |
