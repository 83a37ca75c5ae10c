# Camera analysis core, modelled in Dafny

This project models the image-processing core of the AdvancedCamera Android app
(`MainActivity.kt`). The model covers:

- **Luma histogram** (`computeHistogram`): every row of the frame's first plane
  is copied. Byte offsets 0, pixelStride, 2·pixelStride, … below the width are
  read as unsigned luma values and counted into 256 bins.
- **Zebra and focus-peaking grids** (`computeZebraAndPeaking`):
  - the frame is cut into gridW × gridH cells of `max(1, width / gridW)` ×
    `max(1, height / gridH)` pixels;
  - every second pixel of every second row of a cell is sampled;
  - the zebra flag is `mean luma >= zebraThreshold`;
  - the peaking value is the mean magnitude of a 3×3 Sobel gradient, read
    through the clamping neighbour reader `yAt`.
- **Exposure bracketing** (`clampExposure` and the exposure commands of
  `captureHdrBurstAndSave`): three shots at clamp(−2), clamp(0) and clamp(+2).
  After three saved shots, a restoring clamp(0) follows.
- **Exposure merge** (`simpleExposureMerge`): a per-pixel, per-channel average
  of the decoded bitmaps, repacked as opaque ARGB pixels.
- **Tone mapping** (`toneMapInPlace`): each colour channel goes through an
  S-shaped `curve`, and the pixel is repacked opaque, in place on the bitmap.

Modules, one per file:

| module | file | contents |
|---|---|---|
| `LumaFrame` | `luma_frame.dfy` | Frames, planes, and the signed byte (`i8`). `Luma` is `toInt() and 0xFF`. `ClampInt` is the coordinate clamp. |
| `Histogram` | `histogram.dfy` | `ComputeHistogram` and its row loop `CountRow`, both proved against `HistogramOf(Samples(f))`. `Samples(f)` is the sequence of luma values the loops visit. |
| `ZebraPeaking` | `zebra_peaking.dfy` | The neighbour reader `YAt`, the Sobel responses, the cell geometry and sampled `Centers`, and the per-cell specification `ZebraAt` / `PeakingAt`. Also the four nested loops, split as `ComputeZebraAndPeaking` → `FillGrid` → `FillRow` → `ComputeCell` → `CellStats` → `AccumulateRow` → `Sample`. |
| `Exposure` | `exposure.dfy` | `ClampExposure`. The camera control, as a class that records the exposure commands it receives. `CaptureHdrBurst` is proved against `BracketTrace`. |
| `Argb` | `argb.dfy` | ARGB_8888 pixels as `bv32`, channel extraction and packing. The `Bitmap` class has full-frame `GetPixels` / `SetPixels`. |
| `ToneMap` | `tone_map.dfy` | `Curve`, `ToneMapPixels` and the in-place `ToneMapInPlace`. |
| `ExposureMerge` | `exposure_merge.dfy` | The accumulation and repacking loops. `SimpleExposureMerge` is proved against `MergeResult`. |

The following members model source lines but have no contract of their own,
so they have no row in the table. Most are specification functions: they
define what the methods are proved against.

- `Histogram.Samples` and `Histogram.HistogramOf`: the luma values the loops
  of `computeHistogram` read (:307-318) and their 256-bin count (:315).
- `ZebraPeaking.SobelX`, `ZebraPeaking.SobelY` and `ZebraPeaking.Energy`: the
  3×3 Sobel kernels and `gxv * gxv + gyv * gyv` (:378-383).
- `ZebraPeaking.CellRect`: the cell rectangle `startX`, `endX`, `startY`,
  `endY` (:359-362).
- `ZebraPeaking.Mean` and `ZebraPeaking.PeakingValue`: the cell's
  `avg` (:392) and `gradAccum / max(1, count)` (:394).
- `ZebraPeaking.ZebraAt`, `ZebraPeaking.PeakingAt` and `ZebraPeaking.CellMean`:
  cell (gx, gy)'s expected zebra flag, peaking value and mean (:356-394).
- `Exposure.BracketTrace`: the exposure commands of the HDR burst (:558-585).
- `Exposure.ExposureControl.constructor`: the camera's control before the
  burst, with no command yet recorded; the routine reaches it as
  `camera.cameraControl` (:565, :585).
- `Argb.PackBytes` and `Argb.Pack`: `(0xFF shl 24) or (r shl 16) or
  (g shl 8) or b` (:642, :671).
- `ExposureMerge.MergedPixel` and `ToneMap.ToneMapPixel`: one merged pixel
  (:639-642) and one tone-mapped pixel (:667-671).

Floating-point steps are parameters:

- **Gradient magnitude.** The Sobel energy `gx·gx + gy·gy` is computed exactly
  as an integer. Its square root is the function parameter `mag`.
- **Tone curve.** The sigmoid part of `curve`, `(y * 255f).toInt()`, is the
  parameter `raw`. The `coerceIn(0, 255)` around it is modelled.
- **Merge accumulators.** `FloatArray`s are modelled as integers. Every sum is
  a whole number of at most 255 times the bitmap count, so the float values
  are exact. `(accum / n).toInt()` on non-negative values is then the
  truncated integer quotient.

Behaviour of the code worth knowing:

- **Remainder pixels.** Pixels beyond `gridW * cellW` (or `gridH * cellH`)
  are never sampled (`RemainderNeverSampled`).
- **Merge divisor.** The merge divides by the number of all bitmaps, including
  those skipped for their size (`MismatchedImagesDarken`).
- **Exposure restore.** The restoring `setExposureCompensationIndex(step0)`
  is only reached when all three shots are saved (`BracketFailure`).
- **Empty cells.** A cell without samples gets zebra `0 >= zebraThreshold`
  (`EmptyCell`).
- **Sampling positions.** The histogram reads byte offset `x` of each row,
  stepping by pixelStride. The zebra loop reads `x * pixelStride`, stepping
  x by 2.

## Model

| member | source | states |
|---|---|---|
| `LumaFrame.Luma` | app/src/main/java/com/advancedcamera/app/MainActivity.kt:314 | `b.toInt() and 0xFF` is in [0, 255] and agrees with the signed byte modulo 256 |
| `LumaFrame.ClampInt` | app/src/main/java/com/advancedcamera/app/MainActivity.kt:349-350 | `min(hi, max(lo, v))` lies in [lo, hi]: it is v itself when v is already there, lo when v is below and hi when v is above |
| `Histogram.ComputeHistogram` | app/src/main/java/com/advancedcamera/app/MainActivity.kt:296-321 | afterwards bins 0..255 are the histogram of the sampled luma values, which is all zeros when there is no plane; bins past 255 are zero |
| `Histogram.CountRow` | app/src/main/java/com/advancedcamera/app/MainActivity.kt:309-318 | one pass of the row loop adds the occurrences of each value on row y to its bin and changes nothing else |
| `Histogram.RowOffsetFits` | app/src/main/java/com/advancedcamera/app/MainActivity.kt:309-314 | every sampled offset lies inside the copied row and inside the buffer |
| `Histogram.SampleTaken` | app/src/main/java/com/advancedcamera/app/MainActivity.kt:313-317 | sample k of a row is read exactly when k·pixelStride < width, i.e. k < ceil(width / pixelStride) |
| `Histogram.CeilBounds` | app/src/main/java/com/advancedcamera/app/MainActivity.kt:313-317 | ceil(width / pixelStride) offsets cover the width and one fewer does not |
| `Histogram.SamplesInRange` | app/src/main/java/com/advancedcamera/app/MainActivity.kt:314-315 | every counted value is in [0, 255], so `bins[v]` is always in range |
| `Histogram.SampleCount` | app/src/main/java/com/advancedcamera/app/MainActivity.kt:307-320 | the number of counted samples is height × ceil(width / pixelStride), or 0 without planes |
| `Histogram.HistogramTotal` | app/src/main/java/com/advancedcamera/app/MainActivity.kt:315 | the bins of a sequence of luma values sum to its length |
| `Histogram.HistogramCons` | app/src/main/java/com/advancedcamera/app/MainActivity.kt:315 | counting one more value increments its bin and leaves every other bin unchanged |
| `Histogram.FrameHistogramTotal` | app/src/main/java/com/advancedcamera/app/MainActivity.kt:296-321 | the bins sum to height × ceil(width / pixelStride), or to 0 without planes |
| `Histogram.NoPlaneHistogram` | app/src/main/java/com/advancedcamera/app/MainActivity.kt:297-299 | a frame without planes gives an all-zero histogram |
| `Histogram.UniformFrameHistogram` | app/src/main/java/com/advancedcamera/app/MainActivity.kt:307-320 | a plane whose bytes all have luma v puts every sample in bin v and none elsewhere |
| `ZebraPeaking.ClampedOffset` | app/src/main/java/com/advancedcamera/app/MainActivity.kt:348-351 | yAt's read position is at most the offset of the last pixel, so it is in the buffer |
| `ZebraPeaking.YAt` | app/src/main/java/com/advancedcamera/app/MainActivity.kt:348-353 | yAt returns a luma value in [0, 255] for any coordinates, in or out of the image; its value outside the image is given by `YAtEdge` |
| `ZebraPeaking.UnpaddedLastRow` | app/src/main/java/com/advancedcamera/app/MainActivity.kt:309-310 | a plane whose last row holds only `width` bytes satisfies the neighbour reader's requirement but not the histogram's: the row copy of `rowStride` bytes runs past the buffer on the last row |
| `ZebraPeaking.YAtEdge` | app/src/main/java/com/advancedcamera/app/MainActivity.kt:348-353 | yAt at any coordinates is yAt at the clamped coordinates: left of the image it reads column 0, right of it column width − 1, above it row 0 and below it row height − 1, so edge pixels are repeated |
| `ZebraPeaking.YAtInterior` | app/src/main/java/com/advancedcamera/app/MainActivity.kt:348-353 | inside the image the clamp does nothing: yAt reads the byte at y·rowStride + x·pixelStride |
| `ZebraPeaking.EnergyBound` | app/src/main/java/com/advancedcamera/app/MainActivity.kt:378-383 | each Sobel response is within ±1020 and gx·gx + gy·gy is below 2³¹, so the Int arithmetic does not overflow |
| `ZebraPeaking.FlatPlaneNoGradient` | app/src/main/java/com/advancedcamera/app/MainActivity.kt:378-383 | on a flat plane the gradient energy is 0 everywhere |
| `ZebraPeaking.CellSize` | app/src/main/java/com/advancedcamera/app/MainActivity.kt:344-345 | `max(1, extent / cells)` is at least 1, and the cells fit in the extent when there are no more cells than pixels |
| `ZebraPeaking.Centers` | app/src/main/java/com/advancedcamera/app/MainActivity.kt:368-389 | every sampled centre lies in the cell's rectangle |
| `ZebraPeaking.CentersMembership` | app/src/main/java/com/advancedcamera/app/MainActivity.kt:368-389 | a point is sampled exactly when it lies in the cell at even offsets from the cell's corner |
| `ZebraPeaking.CentersCount` | app/src/main/java/com/advancedcamera/app/MainActivity.kt:368-389 | a w × h cell has ceil(w / 2) · ceil(h / 2) samples |
| `ZebraPeaking.CellCentersInImage` | app/src/main/java/com/advancedcamera/app/MainActivity.kt:359-362 | every sampled centre of every cell is inside the image |
| `ZebraPeaking.RemainderNeverSampled` | app/src/main/java/com/advancedcamera/app/MainActivity.kt:344-362 | no cell samples a pixel right of gridW·cellW or below gridH·cellH |
| `ZebraPeaking.CellsDisjoint` | app/src/main/java/com/advancedcamera/app/MainActivity.kt:359-362 | two different cells never sample the same pixel |
| `ZebraPeaking.ReadersRead` | app/src/main/java/com/advancedcamera/app/MainActivity.kt:372-384 | the per-point luma and gradient readers agree with yAt and with the magnitude of the Sobel energy everywhere in the image |
| `ZebraPeaking.SumAtBound` | app/src/main/java/com/advancedcamera/app/MainActivity.kt:375 | a sum of n luma values is in [0, 255·n] |
| `ZebraPeaking.RealSumAtNonNegative` | app/src/main/java/com/advancedcamera/app/MainActivity.kt:384 | a sum of non-negative magnitudes is non-negative |
| `ZebraPeaking.Sample` | app/src/main/java/com/advancedcamera/app/MainActivity.kt:372-384 | the direct read at base + x·pixelStride is the luma at (x, y), and the Sobel magnitude is the gradient at (x, y) |
| `ZebraPeaking.AccumulateRow` | app/src/main/java/com/advancedcamera/app/MainActivity.kt:370-388 | the innermost loop adds the luma sum, the count and the magnitude sum of row y's centres to the accumulators |
| `ZebraPeaking.SplitFirstRow` | app/src/main/java/com/advancedcamera/app/MainActivity.kt:368-390 | the centres from row y on are row y's centres followed by those from row y + 2 on, and both sums split accordingly |
| `ZebraPeaking.CellStats` | app/src/main/java/com/advancedcamera/app/MainActivity.kt:364-390 | sum, count and gradAccum are the luma sum, the number and the magnitude sum of the cell's sampled centres |
| `ZebraPeaking.MeanIsLuma` | app/src/main/java/com/advancedcamera/app/MainActivity.kt:392 | a cell's mean luma is in [0, 255], so `(sum / count).toInt()` loses nothing |
| `ZebraPeaking.ZebraMonotone` | app/src/main/java/com/advancedcamera/app/MainActivity.kt:393 | raising the threshold can only clear zebra flags |
| `ZebraPeaking.EmptyCell` | app/src/main/java/com/advancedcamera/app/MainActivity.kt:392-394 | a cell without samples is flagged exactly when the threshold is at most 0, and its peaking value is 0 |
| `ZebraPeaking.PeakingNonNegative` | app/src/main/java/com/advancedcamera/app/MainActivity.kt:394 | with a non-negative magnitude every peaking value is non-negative |
| `ZebraPeaking.CellIndexInGrid` | app/src/main/java/com/advancedcamera/app/MainActivity.kt:393-394 | gy·gridW + gx lies in [0, gridW·gridH) |
| `ZebraPeaking.CellIndexOrder` | app/src/main/java/com/advancedcamera/app/MainActivity.kt:356-398 | cells in loop order get strictly increasing indices, so no index is written twice |
| `ZebraPeaking.CellGrid` | app/src/main/java/com/advancedcamera/app/MainActivity.kt:356-399 | the expected grids exist: row gy, entry gx is cell (gx, gy)'s zebra flag and peaking value |
| `ZebraPeaking.CellEntry` | app/src/main/java/com/advancedcamera/app/MainActivity.kt:392-394 | a cell's expected zebra flag and peaking value, in terms of the luma and gradient of its centres |
| `ZebraPeaking.ComputeCell` | app/src/main/java/com/advancedcamera/app/MainActivity.kt:359-394 | one cell's body yields exactly that cell's zebra flag and peaking value |
| `ZebraPeaking.FlattenLength` | app/src/main/java/com/advancedcamera/app/MainActivity.kt:393-394 | gridH rows of gridW cells take gridW·gridH entries of storage |
| `ZebraPeaking.FlattenIndex` | app/src/main/java/com/advancedcamera/app/MainActivity.kt:393-394 | entry gy·gridW + gx of the row-major storage is cell (gx, gy) |
| `ZebraPeaking.FillRow` | app/src/main/java/com/advancedcamera/app/MainActivity.kt:357-397 | the gx loop writes row gy's cells at base..base + gridW − 1, in increasing order, and changes no other entry |
| `ZebraPeaking.FillGrid` | app/src/main/java/com/advancedcamera/app/MainActivity.kt:355-399 | the gy loop lays the expected rows end to end in the first gridW·gridH entries; later entries stay cleared |
| `ZebraPeaking.StoredGrid` | app/src/main/java/com/advancedcamera/app/MainActivity.kt:393-394 | storage that begins with the expected rows holds every cell's values at gy·gridW + gx |
| `ZebraPeaking.ComputeZebraAndPeaking` | app/src/main/java/com/advancedcamera/app/MainActivity.kt:323-400 | both grids are cleared. Without planes, or with a negative gridW or gridH, nothing else is written. Otherwise each index 0..gridW·gridH − 1 is written exactly once, in order, with cell (gx, gy)'s zebra = mean ≥ threshold and peaking = mean magnitude; entries beyond stay cleared. |
| `Exposure.ClampExposure` | app/src/main/java/com/advancedcamera/app/MainActivity.kt:650-653 | 0 without a range; otherwise in [lower, upper], equal to steps when it is in range, lower below it and upper above it |
| `Exposure.ClampIdempotent` | app/src/main/java/com/advancedcamera/app/MainActivity.kt:650-653 | clamping twice is clamping once |
| `Exposure.ClampMonotone` | app/src/main/java/com/advancedcamera/app/MainActivity.kt:650-653 | clamping preserves the order of steps |
| `Exposure.BracketPlan` | app/src/main/java/com/advancedcamera/app/MainActivity.kt:558-561 | the three bracket indices are in range and non-decreasing |
| `Exposure.SavedBeforeFailure` | app/src/main/java/com/advancedcamera/app/MainActivity.kt:564-583 | the number of saved shots before the first failure: every earlier shot was saved and the next one failed |
| `Exposure.SavedPrefix` | app/src/main/java/com/advancedcamera/app/MainActivity.kt:564-583 | the first failure is at j exactly when shots 0..j−1 are saved and shot j is not |
| `Exposure.ExposureControl.SetExposureCompensationIndex` | app/src/main/java/com/advancedcamera/app/MainActivity.kt:565 | the camera records the command |
| `Exposure.CaptureHdrBurst` | app/src/main/java/com/advancedcamera/app/MainActivity.kt:558-585 | the camera receives exactly `BracketTrace`; the routine goes on to decoding the saved files exactly when all three shots are saved |
| `Exposure.BracketSuccess` | app/src/main/java/com/advancedcamera/app/MainActivity.kt:558-585 | on success the commands are clamp(−2), clamp(0), clamp(+2), clamp(0) |
| `Exposure.BracketFailure` | app/src/main/java/com/advancedcamera/app/MainActivity.kt:564-583 | when shot j fails the commands are clamp(2m − 2) for m = 0..j and nothing after, so no restore |
| `Exposure.RestoreIffCompleted` | app/src/main/java/com/advancedcamera/app/MainActivity.kt:564-585 | the fourth, restoring command is sent exactly when all three shots are saved |
| `Exposure.NarrowRangeBracket` | app/src/main/java/com/advancedcamera/app/MainActivity.kt:558-585 | with range [−1, 1] the commands are −1, 0, 1, 0 |
| `Exposure.FixedExposureBracket` | app/src/main/java/com/advancedcamera/app/MainActivity.kt:558-585 | with range [0, 0] the commands are 0, 0, 0, 0 |
| `Argb.Channel` | app/src/main/java/com/advancedcamera/app/MainActivity.kt:630-632 | `(c shr s) and 0xFF` is in [0, 255] |
| `Argb.Alpha` | app/src/main/java/com/advancedcamera/app/MainActivity.kt:642 | the alpha byte is in [0, 255] |
| `Argb.UnpackPack` | app/src/main/java/com/advancedcamera/app/MainActivity.kt:642 | unpacking `(0xFF shl 24) or (r shl 16) or (g shl 8) or b` gives back r, g and b, with alpha 0xFF |
| `Argb.PackUnpack` | app/src/main/java/com/advancedcamera/app/MainActivity.kt:642 | repacking a pixel's own channels returns the pixel exactly when it is opaque |
| `Argb.PackInjective` | app/src/main/java/com/advancedcamera/app/MainActivity.kt:642 | different channel triples pack to different pixels |
| `Argb.Bitmap.Snapshot` | app/src/main/java/com/advancedcamera/app/MainActivity.kt:618-619 | a well-formed bitmap has width × height pixels |
| `Argb.Bitmap.Create` | app/src/main/java/com/advancedcamera/app/MainActivity.kt:618 | a new bitmap of the given size, all pixels 0 |
| `Argb.Bitmap.GetPixels` | app/src/main/java/com/advancedcamera/app/MainActivity.kt:626 | the full-frame read copies every pixel into the array |
| `Argb.Bitmap.SetPixels` | app/src/main/java/com/advancedcamera/app/MainActivity.kt:645 | the full-frame write replaces every pixel by the array's contents |
| `ToneMap.Curve` | app/src/main/java/com/advancedcamera/app/MainActivity.kt:661-665 | the curve is in [0, 255]: raw(x) when raw(x) is in range, 0 below and 255 above |
| `ToneMap.ToneMapPixels` | app/src/main/java/com/advancedcamera/app/MainActivity.kt:666-673 | the pass keeps the number of pixels |
| `ToneMap.ToneMapInPlace` | app/src/main/java/com/advancedcamera/app/MainActivity.kt:655-675 | the bitmap's pixels become the tone-mapped old pixels; size and well-formedness are kept |
| `ToneMap.ToneMapChannels` | app/src/main/java/com/advancedcamera/app/MainActivity.kt:666-673 | each output channel is the curve of the same input channel; the output is opaque |
| `ToneMap.ToneMapIgnoresAlpha` | app/src/main/java/com/advancedcamera/app/MainActivity.kt:667-671 | the input's alpha plays no part |
| `ToneMap.ToneMapBuffer` | app/src/main/java/com/advancedcamera/app/MainActivity.kt:655-675 | after the pass every pixel is opaque, with channels the curve of the old channels |
| `ToneMap.ToneMapMonotone` | app/src/main/java/com/advancedcamera/app/MainActivity.kt:661-671 | with a non-decreasing raw curve, a brighter channel stays at least as bright |
| `ToneMap.IdentityCurve` | app/src/main/java/com/advancedcamera/app/MainActivity.kt:666-673 | with the identity curve an opaque pixel is unchanged, and any pixel becomes its opaque repack |
| `ExposureMerge.ChannelSum` | app/src/main/java/com/advancedcamera/app/MainActivity.kt:624-635 | the accumulator of a channel over n bitmaps is in [0, 255·n] |
| `ExposureMerge.Average` | app/src/main/java/com/advancedcamera/app/MainActivity.kt:639-641 | `(accum / n).toInt().coerceIn(0, 255)` is in [0, 255] |
| `ExposureMerge.MergedPixels` | app/src/main/java/com/advancedcamera/app/MainActivity.kt:637-644 | the merged buffer has the first bitmap's width × height pixels |
| `ExposureMerge.MergeResult` | app/src/main/java/com/advancedcamera/app/MainActivity.kt:616-648 | the result is a well-formed bitmap with the first bitmap's size |
| `ExposureMerge.Snapshots` | app/src/main/java/com/advancedcamera/app/MainActivity.kt:624 | the contents of the bitmap list, one per bitmap |
| `ExposureMerge.Accumulate` | app/src/main/java/com/advancedcamera/app/MainActivity.kt:627-634 | the inner loop adds each pixel's red, green and blue channels to its three accumulators |
| `ExposureMerge.SumsStep` | app/src/main/java/com/advancedcamera/app/MainActivity.kt:624-635 | one more bitmap adds its channels when it has the base size and nothing otherwise |
| `ExposureMerge.AddBitmap` | app/src/main/java/com/advancedcamera/app/MainActivity.kt:625-634 | one pass of the bitmap loop leaves the accumulators holding the sums over one more bitmap |
| `ExposureMerge.AccumulateBitmaps` | app/src/main/java/com/advancedcamera/app/MainActivity.kt:619-635 | after the bitmap loop each accumulator holds its channel summed over the bitmaps of the base size |
| `ExposureMerge.AverageBound` | app/src/main/java/com/advancedcamera/app/MainActivity.kt:639-641 | an average of n values in [0, 255] is in [0, 255] |
| `ExposureMerge.AveragesAt` | app/src/main/java/com/advancedcamera/app/MainActivity.kt:639-642 | the repacking of pixel i from its accumulators is the merged pixel i |
| `ExposureMerge.PackAverages` | app/src/main/java/com/advancedcamera/app/MainActivity.kt:636-644 | the repacking loop fills the buffer with the merged pixels |
| `ExposureMerge.MergeAverages` | app/src/main/java/com/advancedcamera/app/MainActivity.kt:617-644 | accumulation then repacking gives the merged pixels, in a fresh buffer |
| `ExposureMerge.SimpleExposureMerge` | app/src/main/java/com/advancedcamera/app/MainActivity.kt:616-648 | the returned bitmap is new and has the first bitmap's size; its pixels are the tone-mapped merge of the input bitmaps |
| `ExposureMerge.MergedChannels` | app/src/main/java/com/advancedcamera/app/MainActivity.kt:636-642 | each merged channel is min(255, trunc(sum / n)). The clamp never changes the value, and the merged pixel's alpha is 0xFF. |
| `ExposureMerge.MergeResultPixels` | app/src/main/java/com/advancedcamera/app/MainActivity.kt:616-648 | every result pixel is opaque, with each channel the curve of the truncated average |
| `ExposureMerge.ChannelSumUniform` | app/src/main/java/com/advancedcamera/app/MainActivity.kt:624-635 | n copies of one bitmap sum to n times its channel |
| `ExposureMerge.MergeIdentical` | app/src/main/java/com/advancedcamera/app/MainActivity.kt:616-644 | merging copies of one bitmap reproduces its colours, opaque; an opaque bitmap comes back unchanged before tone mapping |
| `ExposureMerge.ChannelSumOnlyFirst` | app/src/main/java/com/advancedcamera/app/MainActivity.kt:624-635 | when only the first bitmap has the base size, the sums are its channels |
| `ExposureMerge.MismatchedImagesDarken` | app/src/main/java/com/advancedcamera/app/MainActivity.kt:624-641 | skipped bitmaps still count in the divisor: the channel is the first bitmap's channel divided by the number of all bitmaps |

## Left out

- User interface, camera binding, the analyzer's lifecycle, file and
  MediaStore I/O, JPEG decoding and encoding, and deletion of the temporary
  files are not part of this model.
- The clock is not modelled. Timestamps only name the saved file.
- `takePicture` and its callbacks are reduced to one flag per shot: was
  `onImageSaved` reached? A failed shot cancels the coroutine, so the routine
  ends at that point.
- `kotlin.math.sqrt` in the peaking magnitude is not computed. It is the
  parameter `mag` over the exact integer Sobel energy.
- The sigmoid of `curve` is not computed. It is the parameter `raw`; only its
  `coerceIn(0, 255)` is modelled.
- The merge's float accumulators are integers. The values are exact at these
  magnitudes.
- The float peaking mean is a `real`. Its rounding is not modelled.
- `peakingThreshold` is a parameter of `computeZebraAndPeaking` that the
  source never reads. It has no counterpart here.
- 32-bit overflow of `width * height`, `y * rowStride` and
  `gy * gridW + gx` is not modelled; integers are unbounded. The Sobel
  arithmetic is shown not to overflow (`EnergyBound`).
- Exceptions and non-termination of the source are not modelled.
  Preconditions exclude the inputs that cause them. Some ask for more than
  the source needs to run: a whole camera plane and a 256-entry bin array,
  which is what the only caller supplies (a CameraX Y plane, `IntArray(256)`
  at :122, grids of `gridW * gridH` entries at :127-128).
  - `HistogramReadable` asks for height · rowStride bytes, because every row
    copy of `computeHistogram` takes rowStride bytes (:309-310). A Y plane
    whose last row is not padded holds only (height − 1) · rowStride + width
    bytes. On it the source throws at the last row copy whenever
    rowStride > width (`UnpaddedLastRow`); the zebra and peaking reader
    accepts the same plane. A 4 × 2 plane of 12 bytes with rowStride 8 and
    pixelStride 1 is one.
  - `HistogramReadable` asks that the last sampled offset of a row,
    (ceil(width / pixelStride) − 1) · pixelStride, be below rowStride.
    Otherwise `row[idx]` (:314) indexes past the row copy and throws, as it
    does whenever width > rowStride with pixelStride 1.
  - `HistogramReadable` also asks for pixelStride ≥ 1. With a pixelStride of 0
    and a non-empty image the row loop of `computeHistogram` never ends
    (`x += 0`, :316). The precondition also excludes the empty images, for
    which that loop would not run.
  - `SobelReadable` asks for every byte of the image, up to the last
    pixel's offset (height − 1) · rowStride + (width − 1) · pixelStride. The
    source reads only the bytes its cells' samples and their clamped
    neighbours touch. Remainder rows and columns are never sampled, so a
    shorter buffer can be enough. For a 640 × 480 frame and the 64 × 36
    grid, rows 469 to 479 are never read.
  - `ComputeZebraAndPeaking` asks for a non-zero gridW and gridH, because
    `width / gridW` and `height / gridH` (:344-345) divide by zero otherwise.
    A negative grid size is modelled: the cell loops do not run.
  - The grid arrays must hold gridW · gridH entries, and the source throws
    on a shorter one once a cell index reaches its length (:393-394).
  - The bin array must hold 256 entries. The source is less strict. Without
    planes it returns after clearing an array of any length (:297-299).
    With a plane it throws only when it counts a luma value at or above
    the array's length (:315).
- Bitmaps are modelled only through full-frame `getPixels` / `setPixels`.
  Other bitmap state is not modelled.
- `decodeFile` failures are not modelled: a bitmap that fails to decode is
  simply absent from the list given to `SimpleExposureMerge`. That list's
  non-emptiness, checked by the caller, is the method's precondition.
- ExposureMerge.SimpleExposureMerge: its postcondition relates the result to
  the input bitmaps' contents at entry. The method modifies no existing
  bitmap, so these are also their contents on return.
