# BoofCV image-processing kernels in Dafny

This project models four pieces of the BoofCV image-processing library. Each
piece works on images stored as a flat array. Pixel (x, y) of an image lives
at `startIndex + y * stride + x`.

- **Fast-Hessian intensity** (`FastHessianFeatureIntensity`) computes the
  determinant-of-Hessian (SURF) response map from an integral image, on a grid
  sampled every `skip` pixels. `naive` is the brute-force reference. `border`
  fills a frame of `border` cells by brute force. `inner` fills the rest with
  eight running flat indexes that advance by `skip`. `intensity` runs `border`,
  then `inner`.
- **FAST corner intensity** (`process`, the U8 instantiation of the text that
  `GenerateImplFastCorner` emits) runs a 4-sample quick test, then a
  contiguous-arc segment test on a 16-sample circle. It writes a signed
  intensity per pixel and queues the corners in a growable queue.
- **Sparse separable convolution** (`ConvolveImageStandardSparse`) evaluates
  the four `Kernel1D_I32` overloads at one pixel. Each does a row pass into
  `storage`, then a column pass, with optional Java-truncating divisors.
- **Multi-band images** (`MultiSpectral`): the constructor, the band count
  (`getNumBands`), band lookup, sub-images and reshape.

Files:
- `images.dfy` (module `Images`): the shared image representations. Read-only
  inputs (`GrayU8`, `GrayS16`, the integral image) are the value datatype
  `Raster`. The intensity image `GrayF32` is a class over an `array<real>`.
  The module also holds the `subimage` argument checks and the predicate
  `Painted`, which says "these cells have been written with these values and
  every other index still holds its old value".
- `fast_hessian.dfy`, `fast_corner.dfy`, `convolve_sparse.dfy`,
  `multi_spectral.dfy`: one module per source file.

The main results:
- `FastHessian.Intensity` leaves exactly the map `FastHessian.Naive`
  computes: every cell holds the response at its sample point.
  `FastHessian.CellsCovered` shows that `border` and `inner` write every cell,
  and write it exactly once when the map is at least two borders wide and high.
- `FastCorner.FastCorner12.Process` writes, for every examined pixel, the
  intensity that the corner definition (`FastCorner.CornerIntensity`) gives.
  It leaves the 3-pixel frame untouched. It queues exactly the corners, in
  row-major order (`FastCorner.CornersContents`). The corner definition uses
  the segment test with its first-sample test as written
  (`FastCorner.SegmentAsWritten`).
- `FastCorner.WrapExact` and `FastCorner.SegmentSound` say that a corner
  reported by the corrected segment test (`FastCorner.Segment`) has an arc of
  `minCont` qualifying samples. When sample 0 qualifies (and
  0 < minCont ≤ |circle|), a corner is reported iff some arc of `minCont`
  qualifying samples takes in sample 0. An arc that does not take in sample 0
  can be missed (`FastCorner.WrapArcMissed`). `FastCorner.AsWrittenAgrees` says the test as written gives the same
  result unless a bright sample 0 meets a dark search. In that case the test
  as written can report a corner without an arc, or with a negative intensity
  (see "## Findings").
- `ConvolveSparse.ConvolveU8` and `ConvolveSparse.ConvolveS16` return the
  closed-form double sum. `ConvolveSparse.ConvolveU8Div` and
  `ConvolveSparse.ConvolveS16Div` return the vertical combination of the row
  sums, each truncate-divided by `divisorHorizontal`, and then truncate-divide
  that total by `divisorVertical`. Every overload leaves the row sums in
  `storage[..width]` and the rest of `storage` untouched.

## Model

| member | source | states |
|---|---|---|
| FastHessian.BorderGeometry | feature/src/gecv/alg/detect/interest/FastHessianFeatureIntensity.java:73-75 | `borderOrig` is a multiple of `skip` and exceeds `size/2 + 1`. `border * skip == borderOrig`, `border >= 1`, and `lostPixel` lies in [1, skip]. |
| FastHessian.ResponseIsDeterminant | feature/src/gecv/alg/detect/interest/FastHessianFeatureIntensity.java:105-117 | The per-point response `Dxx*Dyy - 0.81*Dxy²` after scaling by 1/size² is the determinant of the normalised Hessian with 0.9·Dxy off the diagonal. |
| FastHessian.ComputeIntensity | feature/src/gecv/alg/detect/interest/FastHessianFeatureIntensity.java:105-117 | The store afterwards equals the old store with only cell (x, y) replaced by the response at integral pixel (xx, yy). |
| FastHessian.Naive | feature/src/gecv/alg/detect/interest/FastHessianFeatureIntensity.java:35-57 | Every cell (x, y) of the map holds the response at (x*skip, y*skip). No index outside the map's cells changes. |
| FastHessian.CellsCovered | feature/src/gecv/alg/detect/interest/FastHessianFeatureIntensity.java:79-102 | Every cell is in `border`'s frame or in `inner`'s block, never both. It is written at least once, and exactly once when 2·border ≤ w and 2·border ≤ h. |
| FastHessian.BorderPass | feature/src/gecv/alg/detect/interest/FastHessianFeatureIntensity.java:62-103 | Exactly the frame cells (columns < border or ≥ w-border, then rows < border or ≥ h-border of the other columns) hold their response. Every other index is unchanged. |
| FastHessian.ColumnBands | feature/src/gecv/alg/detect/interest/FastHessianFeatureIntensity.java:79-89 | In every row, the first and last `border` cells hold their response. Nothing else changes. |
| FastHessian.RowBands | feature/src/gecv/alg/detect/interest/FastHessianFeatureIntensity.java:91-102 | For columns [border, w-border), the first and last `border` rows are added to the filled cells. Nothing else changes. |
| FastHessian.FillRow | feature/src/gecv/alg/detect/interest/FastHessianFeatureIntensity.java:81-88 | Cells x0..x1-1 of row y are added to the filled cells. |
| FastHessian.FillColumn | feature/src/gecv/alg/detect/interest/FastHessianFeatureIntensity.java:94-101 | Cells y0..y1-1 of column x are added to the filled cells. |
| FastHessian.KernelExtent | feature/src/gecv/alg/detect/interest/FastHessianFeatureIntensity.java:134-140 | Every kernel rectangle lies within [-r-1, r] of the centre. |
| FastHessian.InnerCellInside | feature/src/gecv/alg/detect/interest/FastHessianFeatureIntensity.java:148-189 | If w·skip ≤ integral width and h·skip ≤ integral height, every integral pixel read for an inner cell lies inside the integral image. |
| FastHessian.BlockFromStore | feature/src/gecv/alg/detect/interest/FastHessianFeatureIntensity.java:177-189 | A rectangle sum is the four stored corner samples combined as data[i11]-data[i01]-data[i10]+data[i00]. The four indexes are in bounds. |
| FastHessian.KernelXXSum | feature/src/gecv/alg/detect/interest/FastHessianFeatureIntensity.java:177-178 | Dxx is the 3·blockSmall × blockLarge box minus 3 times its middle blockSmall-wide strip. |
| FastHessian.KernelYYSum | feature/src/gecv/alg/detect/interest/FastHessianFeatureIntensity.java:180-181 | Dyy is the transpose of the Dxx box decomposition. |
| FastHessian.KernelXYSum | feature/src/gecv/alg/detect/interest/FastHessianFeatureIntensity.java:183-189 | Dxy is top-left − top-right + bottom-right − bottom-left over four blockSmall quadrants one pixel apart. |
| FastHessian.TwoBlocks | feature/src/gecv/alg/detect/interest/FastHessianFeatureIntensity.java:177-181 | A two-rectangle kernel's sum is the sum of its two weighted rectangles. |
| FastHessian.FourBlocks | feature/src/gecv/alg/detect/interest/FastHessianFeatureIntensity.java:186-189 | A four-rectangle kernel's sum is the sum of its four weighted rectangles. |
| FastHessian.ColumnStripKernelSum | feature/src/gecv/alg/detect/interest/FastHessianFeatureIntensity.java:177-178 | The Dxx kernel evaluated at (xx, yy) is the column-strip sum anchored at (xx-r-1, yy-rs-1). |
| FastHessian.RowStripKernelSum | feature/src/gecv/alg/detect/interest/FastHessianFeatureIntensity.java:180-181 | The Dyy kernel evaluated at (xx, yy) is the row-strip sum anchored at (xx-rs-1, yy-r-1). |
| FastHessian.DxxBlocks | feature/src/gecv/alg/detect/interest/FastHessianFeatureIntensity.java:177-178 | The eight reads at indexTop/indexBottom (+0, +bs, +2bs, +3bs) are in bounds and give the column-strip sum. |
| FastHessian.DyyBlocks | feature/src/gecv/alg/detect/interest/FastHessianFeatureIntensity.java:180-181 | The eight reads at indexL/indexR (+0, +rowOff1..3) are in bounds and give the row-strip sum. |
| FastHessian.DxyBlocks | feature/src/gecv/alg/detect/interest/FastHessianFeatureIntensity.java:183-189 | The sixteen reads at indexY1..Y4 are in bounds and give the quadrant sum. |
| FastHessian.QuadrantPair | feature/src/gecv/alg/detect/interest/FastHessianFeatureIntensity.java:183-189 | The reads at x3 = bs+1 and x4 = 2bs+1 past a row index are the right-hand quadrant's corners. |
| FastHessian.BlockRowIndexes | feature/src/gecv/alg/detect/interest/FastHessianFeatureIntensity.java:143-145 | `rowOff1..3` move a flat index down bs, 2bs and 3bs rows. |
| FastHessian.InnerDxx | feature/src/gecv/alg/detect/interest/FastHessianFeatureIntensity.java:177-178 | At the running indexes, the flat Dxx reads are in bounds and equal the Dxx kernel at (xx, yy). |
| FastHessian.InnerDyy | feature/src/gecv/alg/detect/interest/FastHessianFeatureIntensity.java:180-181 | At the running indexes, the flat Dyy reads are in bounds and equal the Dyy kernel at (xx, yy). |
| FastHessian.InnerDxy | feature/src/gecv/alg/detect/interest/FastHessianFeatureIntensity.java:183-189 | At the running indexes, the flat Dxy reads are in bounds and equal the Dxy kernel at (xx, yy). |
| FastHessian.DxxAt | feature/src/gecv/alg/detect/interest/FastHessianFeatureIntensity.java:177-178 | The flat Dxx reads equal the column-strip kernel for any radius and block sizes. |
| FastHessian.DyyAt | feature/src/gecv/alg/detect/interest/FastHessianFeatureIntensity.java:180-181 | The flat Dyy reads equal the row-strip kernel for any radius and block sizes. |
| FastHessian.RunningIndexesStep | feature/src/gecv/alg/detect/interest/FastHessianFeatureIntensity.java:197-204 | Moving the sample `skip` columns right while adding `skip` to all eight indexes keeps each index on its fixed integral pixel relative to the sample. |
| FastHessian.InnerResponse | feature/src/gecv/alg/detect/interest/FastHessianFeatureIntensity.java:176-195 | The response formed from the reads at the running indexes is the brute-force response at (xx, yy). |
| FastHessian.InnerCell | feature/src/gecv/alg/detect/interest/FastHessianFeatureIntensity.java:177-195 | The `det` computed from the running indexes is the cell's response, i.e. what `naive` writes there. |
| FastHessian.StoreInner | feature/src/gecv/alg/detect/interest/FastHessianFeatureIntensity.java:195 | Storing `det` at `indexDst` adds cell (x, y) to the filled cells and changes no other index. |
| FastHessian.InnerStep | feature/src/gecv/alg/detect/interest/FastHessianFeatureIntensity.java:176-205 | One column step fills cell (x, y) with its response. |
| FastHessian.RowStart | feature/src/gecv/alg/detect/interest/FastHessianFeatureIntensity.java:157-174 | `indexDst` addresses output cell (border, y). The eight indexes address the fixed integral pixels around (borderOrig, y·skip), e.g. indexTop = (borderOrig-r-1, yy-radiusSkinny-1). |
| FastHessian.InnerRow | feature/src/gecv/alg/detect/interest/FastHessianFeatureIntensity.java:154-206 | Row y's cells in [border, w-border) are added to the filled cells. |
| FastHessian.Inner | feature/src/gecv/alg/detect/interest/FastHessianFeatureIntensity.java:126-208 | Exactly the cells of [border, w-border) × [border, h-border) hold their response. Every other index of the store is unchanged. |
| FastHessian.Intensity | feature/src/gecv/alg/detect/interest/FastHessianFeatureIntensity.java:217-225 | After `border` then `inner`, every cell holds the response at (x·skip, y·skip): the same map `naive` computes. |
| FastCorner.CanonicalRadius | main/feature/generate/boofcv/alg/feature/detect/intensity/impl/GenerateImplFastCorner.java:111-114 | `getCanonicalRadius` is the circle radius 3. |
| FastCorner.IgnoreBorder | main/feature/generate/boofcv/alg/feature/detect/intensity/impl/GenerateImplFastCorner.java:116-119 | `getIgnoreBorder` equals the canonical radius. |
| FastCorner.IgnoredBorderSuffices | main/feature/generate/boofcv/alg/feature/detect/intensity/impl/GenerateImplFastCorner.java:149-154 | For a pixel at least `getIgnoreBorder()` from every edge, every circle sample lies inside the image. |
| FastCorner.QuickAction | main/feature/generate/boofcv/alg/feature/detect/intensity/impl/GenerateImplFastCorner.java:157-199 | The result is -1, 0 or 1. It is -1 iff at least three compass samples are below center-tol. It is 1 only if at least three are above center+tol, and with tol ≥ 0 always then. |
| FastCorner.Run | main/feature/generate/boofcv/alg/feature/detect/intensity/impl/GenerateImplFastCorner.java:219-227 | The run from i is a block of qualifying samples ended by a non-qualifying one or by the end of the circle. |
| FastCorner.RunBack | main/feature/generate/boofcv/alg/feature/detect/intensity/impl/GenerateImplFastCorner.java:233-240 | The run back from j is a block of qualifying samples preceded by a non-qualifying one or by the start. |
| FastCorner.First | main/feature/generate/boofcv/alg/feature/detect/intensity/impl/GenerateImplFastCorner.java:251-257 | The first qualifying sample at or after i, or the circle length when there is none. |
| FastCorner.RunExact | main/feature/generate/boofcv/alg/feature/detect/intensity/impl/GenerateImplFastCorner.java:219-229 | A run is exactly as long as the qualifying block that follows i. |
| FastCorner.SumPrepend | main/feature/generate/boofcv/alg/feature/detect/intensity/impl/GenerateImplFastCorner.java:218-226 | The running total grows by one sample at a time, from the front. |
| FastCorner.ScanForward | main/feature/generate/boofcv/alg/feature/detect/intensity/impl/GenerateImplFastCorner.java:219-227 | The forward `break` loop stops at `from + Run(...)` and adds up exactly the qualifying differences it passed. |
| FastCorner.ScanBackward | main/feature/generate/boofcv/alg/feature/detect/intensity/impl/GenerateImplFastCorner.java:233-240 | The backward loop stops at `n-1-RunBack(...)` and adds up the differences of the run that ends the circle. |
| FastCorner.ScanFirst | main/feature/generate/boofcv/alg/feature/detect/intensity/impl/GenerateImplFastCorner.java:250-257 | The `start` loop stops at the first qualifying sample. |
| FastCorner.FirstRunBranch | main/feature/generate/boofcv/alg/feature/detect/intensity/impl/GenerateImplFastCorner.java:248-272 | The branch without wrap-around reports a corner iff stop-start ≥ minCont, with the total of the samples after `start`. |
| FastCorner.SegmentTest | main/feature/generate/boofcv/alg/feature/detect/intensity/impl/GenerateImplFastCorner.java:207-272 | The flat-array segment test returns exactly the segment test with the first-sample test as written (`SegmentAsWritten`) on the circle's differences. |
| FastCorner.AsWrittenAgrees | main/feature/generate/boofcv/alg/feature/detect/intensity/impl/GenerateImplFastCorner.java:213-214 | Unless sample 0 is bright (> tol) during a dark search, the segment test as written and the corrected one return the same verdict and total. |
| FastCorner.AsWrittenSound | main/feature/generate/boofcv/alg/feature/detect/intensity/impl/GenerateImplFastCorner.java:207-272 | Unless sample 0 is bright during a dark search, a corner reported by the segment test as written on a circle with a qualifying sample has an arc of minCont samples. |
| FastCorner.NegativeIntensityAsWritten | main/feature/generate/boofcv/alg/feature/detect/intensity/impl/GenerateImplFastCorner.java:202-283 | On a circle with a bright sample 0 and twelve slightly dark samples, the quick test is dark. The test as written reports a corner with totalDiff +23, so the written intensity is −23. |
| FastCorner.WrapExact | main/feature/generate/boofcv/alg/feature/detect/intensity/impl/GenerateImplFastCorner.java:213-246 | When sample 0 qualifies, the pixel is a corner iff some arc of minCont qualifying samples takes in sample 0. |
| FastCorner.WrapSound | main/feature/generate/boofcv/alg/feature/detect/intensity/impl/GenerateImplFastCorner.java:229-246 | A corner from the front run plus the back run has an arc through sample 0. |
| FastCorner.WrapComplete | main/feature/generate/boofcv/alg/feature/detect/intensity/impl/GenerateImplFastCorner.java:229-246 | An arc through sample 0 is found by the front run plus the back run. |
| FastCorner.WrapSoundAny | main/feature/generate/boofcv/alg/feature/detect/intensity/impl/GenerateImplFastCorner.java:229-246 | The wrap-around branch is sound for any minCont, including one longer than the circle. |
| FastCorner.FirstRunSound | main/feature/generate/boofcv/alg/feature/detect/intensity/impl/GenerateImplFastCorner.java:248-272 | A corner found from the first run has an arc of minCont qualifying samples. |
| FastCorner.SegmentSound | main/feature/generate/boofcv/alg/feature/detect/intensity/impl/GenerateImplFastCorner.java:207-272 | Whenever the segment test reports a corner on a circle with a qualifying sample, some arc of minCont samples qualifies. |
| FastCorner.RunAtLeast | main/feature/generate/boofcv/alg/feature/detect/intensity/impl/GenerateImplFastCorner.java:219-227 | A block of m qualifying samples from i makes the run from i at least m long. |
| FastCorner.RunBackAtLeast | main/feature/generate/boofcv/alg/feature/detect/intensity/impl/GenerateImplFastCorner.java:233-240 | A block of m qualifying samples ending before j makes the run back at least m long. |
| FastCorner.AllQualify | main/feature/generate/boofcv/alg/feature/detect/intensity/impl/GenerateImplFastCorner.java:219-231 | When the front run covers the circle, every sample, taken round the circle, qualifies. |
| FastCorner.WrapIndex | main/feature/generate/boofcv/alg/feature/detect/intensity/impl/GenerateImplFastCorner.java:229-241 | Positions along the back run then the front run are the arc's positions taken round the circle. |
| FastCorner.SumSign | main/feature/generate/boofcv/alg/feature/detect/intensity/impl/GenerateImplFastCorner.java:218-267 | A total of qualifying differences has the polarity's sign. |
| FastCorner.SegmentTotalSign | main/feature/generate/boofcv/alg/feature/detect/intensity/impl/GenerateImplFastCorner.java:207-272 | With tol ≥ 0, `totalDiff` is ≤ 0 for dark searches and ≥ 0 for bright ones. |
| FastCorner.CornerIntensityNonNegative | main/feature/generate/boofcv/alg/feature/detect/intensity/impl/GenerateImplFastCorner.java:274-283 | With tol ≥ 0, and unless sample 0 is bright during a dark search, the written intensity (−totalDiff for dark corners, totalDiff for bright ones, 0 otherwise) is ≥ 0. |
| FastCorner.CornerHasArc | main/feature/generate/boofcv/alg/feature/detect/intensity/impl/GenerateImplFastCorner.java:157-272 | Unless sample 0 is bright during a dark search, a corner passed the quick test with polarity ±1 and has an arc of minCont samples of that polarity. |
| FastCorner.WrapArcMissed | main/feature/generate/boofcv/alg/feature/detect/intensity/impl/GenerateImplFastCorner.java:216-246 | When sample 0 qualifies, only the run through sample 0 is inspected: a circle whose only 12-arc (samples 2-13) avoids sample 0 is not a corner, for either first-sample test. |
| FastCorner.WrapArcIsArc | main/feature/generate/boofcv/alg/feature/detect/intensity/impl/GenerateImplFastCorner.java:216-246 | Samples 2-13 of the wrap-branch witness circle are a dark arc of 12. |
| FastCorner.WrapArcRejected | main/feature/generate/boofcv/alg/feature/detect/intensity/impl/GenerateImplFastCorner.java:216-246 | On that circle the front run (sample 0 alone) and the back run (sample 15) total 2 < 12, so the corrected test reports no corner. |
| FastCorner.LateArcMissed | main/feature/generate/boofcv/alg/feature/detect/intensity/impl/GenerateImplFastCorner.java:248-270 | Only the first run is inspected: a circle whose only 12-arc comes after an earlier short run is not a corner. |
| FastCorner.CircleRead | main/feature/generate/boofcv/alg/feature/detect/intensity/impl/GenerateImplFastCorner.java:157-162 | For an examined pixel, `data[index + offsets[i]] & 0xFF` is in bounds and is circle sample i. |
| FastCorner.CircleReads | main/feature/generate/boofcv/alg/feature/detect/intensity/impl/GenerateImplFastCorner.java:157-162 | All flat reads of an examined pixel are in bounds. They see its centre and circle, and the flat differences are the circle's differences. |
| FastCorner.ActionSamples | main/feature/generate/boofcv/alg/feature/detect/intensity/impl/GenerateImplFastCorner.java:144-162 | The quick test reads the centre and circle samples 0, 4, 8 and 12. |
| FastCorner.ActionOf | main/feature/generate/boofcv/alg/feature/detect/intensity/impl/GenerateImplFastCorner.java:144-199 | The quick test on the compass samples read from the store is the quick test at (x, y). |
| FastCorner.IntensityOf | main/feature/generate/boofcv/alg/feature/detect/intensity/impl/GenerateImplFastCorner.java:202-283 | The verdict is "corner" iff the action is non-zero and the segment test succeeds. The intensity is 0 for action 0 and the signed total otherwise. |
| FastCorner.Examine | main/feature/generate/boofcv/alg/feature/detect/intensity/impl/GenerateImplFastCorner.java:157-272 | One pixel's corner verdict and intensity are exactly the corner definition's, with the first-sample test as written. |
| FastCorner.ScanPixel | main/feature/generate/boofcv/alg/feature/detect/intensity/impl/GenerateImplFastCorner.java:157-283 | The pixel's intensity is written at its cell, no other cell changes, and the queue grows by the pixel iff it is a corner. A full queue is first resized by `GrownCapacity`. |
| FastCorner.ScanStep | main/feature/generate/boofcv/alg/feature/detect/intensity/impl/GenerateImplFastCorner.java:154-283 | One inner iteration, with the column recovered as `index - rowStart`, does what ScanPixel does. |
| FastCorner.RowFinished | main/feature/generate/boofcv/alg/feature/detect/intensity/impl/GenerateImplFastCorner.java:149-154 | Passing the last examined column completes row y, for the written cells and for the queued points. |
| FastCorner.ScanRow | main/feature/generate/boofcv/alg/feature/detect/intensity/impl/GenerateImplFastCorner.java:150-284 | Every examined pixel of row y gets its intensity. The row's corners are appended left to right. |
| FastCorner.ScanImage | main/feature/generate/boofcv/alg/feature/detect/intensity/impl/GenerateImplFastCorner.java:149-285 | Every examined pixel holds its intensity, every other index is unchanged, and the queue holds the corners in scan order. |
| FastCorner.RowPointsMembers | main/feature/generate/boofcv/alg/feature/detect/intensity/impl/GenerateImplFastCorner.java:274-280 | A point is queued for row y up to column x1 iff it is a marked pixel of that row in [3, x1). |
| FastCorner.RowPointsEnd | main/feature/generate/boofcv/alg/feature/detect/intensity/impl/GenerateImplFastCorner.java:151-154 | A row's queued points are the same whichever of its end columns the scan stops at. |
| FastCorner.AppendInScanOrder | main/feature/generate/boofcv/alg/feature/detect/intensity/impl/GenerateImplFastCorner.java:149-154 | Two ordered lists, the first wholly before the second, concatenate to an ordered list. |
| FastCorner.RowPointsBounds | main/feature/generate/boofcv/alg/feature/detect/intensity/impl/GenerateImplFastCorner.java:154 | Every point queued for a row lies on that row. |
| FastCorner.RowPointsIncreasing | main/feature/generate/boofcv/alg/feature/detect/intensity/impl/GenerateImplFastCorner.java:154 | A row's points are queued left to right. |
| FastCorner.ScanPointsBounds | main/feature/generate/boofcv/alg/feature/detect/intensity/impl/GenerateImplFastCorner.java:149 | Points queued before row y1 lie above it. |
| FastCorner.ScanPointsMembers | main/feature/generate/boofcv/alg/feature/detect/intensity/impl/GenerateImplFastCorner.java:149-280 | A point is queued iff it is a marked pixel in rows [3, y1) and columns [3, w-3). |
| FastCorner.ScanPointsOrdered | main/feature/generate/boofcv/alg/feature/detect/intensity/impl/GenerateImplFastCorner.java:149-154 | The queued points are in row-major scan order. |
| FastCorner.CornersContents | main/feature/generate/boofcv/alg/feature/detect/intensity/impl/GenerateImplFastCorner.java:132-280 | The queue holds exactly the examined corners, each as (index-rowStart, y), in row-major order. |
| FastCorner.QueueCorner.constructor | main/feature/generate/boofcv/alg/feature/detect/intensity/impl/GenerateImplFastCorner.java:127 | A new queue is empty with the given capacity. |
| FastCorner.QueueCorner.Reset | main/feature/generate/boofcv/alg/feature/detect/intensity/impl/GenerateImplFastCorner.java:132 | `reset` empties the queue and keeps the capacity. |
| FastCorner.QueueCorner.Resize | main/feature/generate/boofcv/alg/feature/detect/intensity/impl/GenerateImplFastCorner.java:278 | `resize` sets the capacity and keeps the points. |
| FastCorner.QueueCorner.Add | main/feature/generate/boofcv/alg/feature/detect/intensity/impl/GenerateImplFastCorner.java:280 | `add` appends the point and keeps the capacity. |
| FastCorner.GrownCapacityAsWritten | main/feature/generate/boofcv/alg/feature/detect/intensity/impl/GenerateImplFastCorner.java:277-279 | The capacity after growth, as written: twice the old one (see Findings). |
| FastCorner.GrownCapacityAsWrittenRoom | main/feature/generate/boofcv/alg/feature/detect/intensity/impl/GenerateImplFastCorner.java:277-279 | Doubling makes room for another corner iff the old capacity was positive. |
| FastCorner.GrownCapacity | main/feature/generate/boofcv/alg/feature/detect/intensity/impl/GenerateImplFastCorner.java:277-279 | The corrected capacity always exceeds the old one, and equals the doubling when that is positive. |
| FastCorner.BrightFirstSampleCounterexample | main/feature/generate/boofcv/alg/feature/detect/intensity/impl/GenerateImplFastCorner.java:213-246 | On the witness circle the quick test is dark. The as-written test reports a corner with totalDiff −1100, the corrected test does not, and no 12-sample dark arc exists. |
| FastCorner.BrightFirstSampleAsWritten | main/feature/generate/boofcv/alg/feature/detect/intensity/impl/GenerateImplFastCorner.java:213-246 | The as-written segment test reports a corner with totalDiff −1100 on the witness circle. |
| FastCorner.BrightFirstSampleRejected | main/feature/generate/boofcv/alg/feature/detect/intensity/impl/GenerateImplFastCorner.java:213-246 | The corrected segment test rejects the witness circle. |
| FastCorner.BrightFirstSampleNoArc | main/feature/generate/boofcv/alg/feature/detect/intensity/impl/GenerateImplFastCorner.java:213-246 | The witness circle has no dark arc of 12 samples. |
| FastCorner.BrightFirstSampleRun | main/feature/generate/boofcv/alg/feature/detect/intensity/impl/GenerateImplFastCorner.java:219-229 | On the witness circle, the dark run after sample 0 is 8 long. |
| FastCorner.BrightFirstSampleRunBack | main/feature/generate/boofcv/alg/feature/detect/intensity/impl/GenerateImplFastCorner.java:233-241 | On the witness circle, the dark run ending the circle is 4 long. |
| FastCorner.BrightFirstSampleSums | main/feature/generate/boofcv/alg/feature/detect/intensity/impl/GenerateImplFastCorner.java:218-239 | On the witness circle, the front run including sample 0 totals −700 and the back run −400. |
| FastCorner.FastCorner12.constructor | main/feature/generate/boofcv/alg/feature/detect/intensity/impl/GenerateImplFastCorner.java:96-99 | Stores pixelTol and minCont. No intensity image or queue exists yet. |
| FastCorner.FastCorner12.Process | main/feature/generate/boofcv/alg/feature/detect/intensity/impl/GenerateImplFastCorner.java:122-286 | The intensity image is declared on the first call, reshaped when the size differs, and reused otherwise, and it ends at the input's size. Every examined pixel holds its corner intensity (first-sample test as written) and the 3-pixel frame keeps the store's old values. The queue holds exactly the corners, in scan order. |
| ConvolveSparse.JavaDiv | main/ip/src/boofcv/alg/filter/convolve/noborder/ConvolveImageStandardSparse.java:110-118 | Java's `/`: the quotient's magnitude is the dividend's magnitude divided by the divisor's, rounded down. |
| ConvolveSparse.JavaDivTruncates | main/ip/src/boofcv/alg/filter/convolve/noborder/ConvolveImageStandardSparse.java:110-118 | The remainder is smaller than the divisor in magnitude and has the dividend's sign: division rounds toward zero. |
| ConvolveSparse.JavaDivOfNegative | main/ip/src/boofcv/alg/filter/convolve/noborder/ConvolveImageStandardSparse.java:118 | −7 / 2 is −3 in Java, not the Euclidean −4. |
| ConvolveSparse.WindowRow | main/ip/src/boofcv/alg/filter/convolve/noborder/ConvolveImageStandardSparse.java:77-81 | Row i of the window holds the samples at (cx-radius+j, cy-radius+i). |
| ConvolveSparse.Window | main/ip/src/boofcv/alg/filter/convolve/noborder/ConvolveImageStandardSparse.java:76-84 | The window has `width` rows, row i being WindowRow i. |
| ConvolveSparse.RowSums | main/ip/src/boofcv/alg/filter/convolve/noborder/ConvolveImageStandardSparse.java:76-111 | One entry per window row: the row's weighted sum, truncating-divided by the horizontal divisor when there is one. |
| ConvolveSparse.ScaledRowIsScaledDot | main/ip/src/boofcv/alg/filter/convolve/noborder/ConvolveImageStandardSparse.java:87-90 | Weighting a row by a vertical weight is its dot product times that weight. |
| ConvolveSparse.SeparableIsKernel2D | main/ip/src/boofcv/alg/filter/convolve/noborder/ConvolveImageStandardSparse.java:69-92 | The vertical pass over the undivided row sums equals the closed form Σᵢ vertical[i]·Σⱼ horizontal[j]·input(cx-r+j, cy-r+i). |
| ConvolveSparse.RowTotal | main/ip/src/boofcv/alg/filter/convolve/noborder/ConvolveImageStandardSparse.java:77-83 | The inner loop over a running `indexImg` returns the dot product of the kernel with window row i. |
| ConvolveSparse.VerticalPass | main/ip/src/boofcv/alg/filter/convolve/noborder/ConvolveImageStandardSparse.java:86-91 | The column pass returns the row sums weighted by the vertical kernel. |
| ConvolveSparse.ConvolveWith | main/ip/src/boofcv/alg/filter/convolve/noborder/ConvolveImageStandardSparse.java:69-171 | `storage[..width]` holds the (optionally divided) row sums and the rest of `storage` is unchanged. The total is their vertical combination, divided by the vertical divisor when there is one. |
| ConvolveSparse.ConvolveU8 | main/ip/src/boofcv/alg/filter/convolve/noborder/ConvolveImageStandardSparse.java:69-92 | Samples are read unsigned. The row sums land in `storage[..width]`, the rest is untouched, and the result is the closed-form double sum. |
| ConvolveSparse.ConvolveU8Div | main/ip/src/boofcv/alg/filter/convolve/noborder/ConvolveImageStandardSparse.java:94-119 | Unsigned samples. `storage[i]` is row i's sum truncating-divided by divisorHorizontal. The result is the vertical combination truncating-divided by divisorVertical. |
| ConvolveSparse.ConvolveS16 | main/ip/src/boofcv/alg/filter/convolve/noborder/ConvolveImageStandardSparse.java:121-144 | Samples are read signed. The row sums land in `storage[..width]`, the rest is untouched, and the result is the closed-form double sum. |
| ConvolveSparse.ConvolveS16Div | main/ip/src/boofcv/alg/filter/convolve/noborder/ConvolveImageStandardSparse.java:146-171 | Signed samples. Row sums are divided by divisorHorizontal and the total by divisorVertical, both truncating. |
| MultiSpectralImages.MultiSpectral.constructor | main/ip/src/boofcv/struct/image/MultiSpectral.java:43-53 | numBands distinct, freshly declared, zeroed width × height bands. stride = width, startIndex = 0. |
| MultiSpectralImages.MultiSpectral.GetBand | main/ip/src/boofcv/struct/image/MultiSpectral.java:70-75 | Fails with "band out of bounds" iff band < 0 or band ≥ numBands; otherwise returns bands[band]. |
| MultiSpectralImages.MultiSpectral.Subimage | main/ip/src/boofcv/struct/image/MultiSpectral.java:89-108 | Fails iff the corners are not 0 ≤ x0 ≤ x1 ≤ width, 0 ≤ y0 ≤ y1 ≤ height, with the source's first failing check as the error. On success: width x1-x0, height y1-y0, stride max(width, stride), startIndex shifted by y0·stride + x0, the same band count, and band i sharing band i's store, shifted by (x0, y0). |
| MultiSpectralImages.MultiSpectral.SubimageBands | main/ip/src/boofcv/struct/image/MultiSpectral.java:103-105 | Band i of the result is band i's own sub-image over the same rectangle, sharing its store. |
| MultiSpectralImages.MultiSpectral.Reshape | main/ip/src/boofcv/struct/image/MultiSpectral.java:118-128 | startIndex = 0, stride = width = w, height = h. Every band is reshaped to w × h and the band list is the same. A band whose store holds at least w·h cells keeps it, so no new memory is declared. A band with a smaller store gets a fresh zeroed store of w·h cells. |
| Images.SubimageError | main/ip/src/boofcv/struct/image/MultiSpectral.java:90-95 | No error iff 0 ≤ x0 ≤ x1 ≤ width and 0 ≤ y0 ≤ y1 ≤ height. The checks are made in the source's order. |

## Left out

- The arithmetic is not 32-bit. Integral-image sums, convolution totals and FAST
  differences are unbounded integers, so Java `int` overflow is not modelled.
- The float arithmetic is not modelled. The Fast-Hessian integral image is an
  `ImageFloat32` holding whole numbers; the model holds them as integers and
  keeps the final response as `real`. Float rounding of `norm` and of `0.81f`
  is not modelled.
- The `ImageFloat32` overload of `convolve` and the F32 FAST instantiation are
  not part of this model. Only the `Kernel1D_I32` overloads and the U8
  instantiation are modelled.
- Divisors of zero are excluded by `requires`. Java would throw
  `ArithmeticException` there.
- `ConvolveSparse.ConvolveWith`: the caller must keep the window inside the
  image and make `storage` and the vertical kernel at least `width` long. The
  source checks none of these. A window past the left or right edge whose flat
  indexes stay inside `input.data` silently reads pixels of the neighbouring
  rows and returns a wrong total. Java throws an array index exception only
  when an index leaves `input.data`, `storage` or the kernel. Neither outcome
  is modelled.
- `FastHessian.BorderPass` requires `BorderFits`. When the map has rows, it
  must be at least `border` wide. When it is more than two borders wide, it
  must be at least `border` high. For size 9 and skip 1, `border` is 6. On
  smaller maps `border` calls `intensity.set` at cells outside the map, and
  that error path is not modelled (`ImageFloat32.set` is not part of this
  model).
- `FastHessian.Intensity` carries the same `BorderFits` requirement as
  `FastHessian.BorderPass`, for the same reason.
- `FastCorner.FastCorner12.Process` and `FastCorner.ScanPixel` resize a full
  queue to `GrownCapacity`: twice the capacity, as the source does, but 1 for a
  queue of capacity 0. The source's `getMaxSize()*2` leaves no room in a queue
  of capacity 0 (see "## Findings"). What `QueueCorner.add` then does is not
  part of this model.
- `FastCorner.CornerHasArc` holds only when `FirstSampleAgrees`: sample 0 is
  not bright (> tol) during a dark search. Otherwise the first-sample test as
  written can report a dark corner with no dark arc, as
  `FastCorner.BrightFirstSampleCounterexample` shows.
- `FastCorner.CornerIntensityNonNegative` also holds only when
  `FirstSampleAgrees`. Otherwise the written intensity can be negative, as
  `FastCorner.NegativeIntensityAsWritten` shows (−23).
- `DerivativeIntegralImage.kernelDerivXX/YY/XY` and
  `IntegralImageOps.convolveSparse` are not part of this model. The kernels
  are defined here as the rectangle decompositions that `inner` reads, and an
  integral read outside the image counts as 0. Every result about `inner` uses
  in-bounds reads only.
- `DiscretizedCircle.imageOffsets` is not part of this model. The circle is a
  parameter: at least 13 (dx, dy) samples within radius 3. The flat offsets
  are `dy * stride + dx`.
- `QueueCorner`, `ImageFloat32.reshape` and `ImageSingleBand.subimage` are not
  part of this model. `FastCorner.QueueCorner` and `Images.GrayF32` stand in
  for them with the behaviour `process` and `MultiSpectral` rely on.
  - Reshape reuses the store when it is large enough and otherwise declares a
    zeroed one of w·h cells. The doc comment of `MultiSpectral.reshape` says a
    too-small store throws instead.
  - The exception for reshaping a sub-image is not modelled.
- `FastCorner.FastCorner12.Process` returns the intensity store as it was
  before the scan (a ghost value). On a fresh or grown store that is all
  zeros; otherwise it is the previous call's store. It states what the frame
  holds relative to that, not an absolute value.
- The `getIntensity` and `getCandidates` accessors are field reads of
  `FastCorner.FastCorner12` and have no member of their own.
- `MultiSpectralImages.MultiSpectral.NumBands` (`getNumBands`) and
  `FastCorner.QueueCorner.IsFull` (`isFull`) are plain accessors with no
  contract of their own. The band count is fixed by other contracts: the
  constructor sets it to `numBands`, `Subimage` keeps it, and `Reshape` keeps
  the band list. `IsFull` is what `FastCorner.ScanPixel` tests before growing
  the queue.
- `MultiSpectral`'s element-type `Class<T>`, its protected constructor and
  `getType` are reflection plumbing. They are modelled only as
  `MultiSpectral.Of`, which sets the fields.
- The code-emission plumbing of `GenerateImplFastCorner` (the string printing,
  file output and `main`) is not modelled.
- `FastCorner.LateArcMissed`: when sample 0 does not qualify, the segment test
  inspects only the first run of qualifying samples, and a later run of
  `minCont` is missed. When sample 0 qualifies, only the run through sample 0
  is inspected (`FastCorner.WrapArcMissed`). This is what lines 248-270 and
  216-246 implement, and the model keeps it. The `minCont` parameter's
  description reads as the usual FAST definition, in which any arc of
  `minCont` samples makes a corner; neither branch of the source follows it.

## Findings

| source | as written | input that shows it | evidently intended | confidence | as-written member | corrected member |
|---|---|---|---|---|---|---|
| main/feature/generate/boofcv/alg/feature/detect/intensity/impl/GenerateImplFastCorner.java:213-214 | For a dark search (`action == -1`), the first-sample test also lets sample 0 pass when it is BRIGHT (`val > pixelTol`), because the `val > pixelTol` alternative is not guarded by `action == 1`. The wrap-around branch then counts it in the dark arc and adds its positive difference to `totalDiff`. | Centre 100, tol 10, minCont 12. Sample 0 is +100, samples 1-8 are dark, 9-11 are flat, 12-15 are dark. The quick test is dark; 1 + 8 + 4 = 13 ≥ 12, so a corner is reported with totalDiff −1100, yet no 12-sample dark arc exists. A second circle (`NegativeIntensityAsWritten`) gets the intensity −23. | Sample 0 is tested for the polarity being searched: below −tol for dark, above +tol for bright. | medium, not executed | FastCorner.BrightFirstSampleCounterexample | FastCorner.WrapExact |
| main/feature/generate/boofcv/alg/feature/detect/intensity/impl/GenerateImplFastCorner.java:277-279 | A full queue is resized to `getMaxSize()*2`. | A first call on an image of width 0 creates the queue with capacity 0, and later calls keep that queue. On a later image with a corner, the full queue is resized to 0·2 = 0 and the `add` has no room. | The capacity grows by at least one. | low, not executed | FastCorner.GrownCapacityAsWrittenRoom | FastCorner.GrownCapacity |
