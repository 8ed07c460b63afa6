# Canny edge detector: buffers and pipeline stages in Dafny

This project models the worker side of a browser Canny edge detector
(`canny_worker.js`). Its core has two parts.

- **Two buffer classes.**
  - `Uint8ClampedWrapper` is a single-channel view over an RGBA byte store.
    - `setMid` writes one grey value into the red, green and blue bytes, through the
      clamping conversion of a `Uint8ClampedArray`.
    - `getMid` reads the rounded mean of those three bytes.
  - `TypedArrayWrapper` is a flat `width * height` array, addressed `y * width + x`.
  - Each class is either empty (no array, zero dimensions) or fully allocated.
- **The stages of `CannyLogic`**, each of which fills fresh buffers in nested row and
  column loops:
  - `grayscale`: luminance;
  - `gradientLength`: Sobel derivatives with clamp-to-edge reads, the gradient length, and
    the direction bucketed into four codes;
  - `thresholdSuppression`: non-maximum suppression along the direction;
  - `doubleThresholdFilter`: classification into 0, 127 and 255;
  - `trackEdge`: hysteresis. It is an in-place breadth-first flood fill over
    8-neighbourhoods that marks visited pixels by zeroing them.

The same code is duplicated in `canny_edge_detector.js`, inside `worker_pseudo_file`, at
the same line numbers plus 5. That file also holds a main-thread copy of
`Uint8ClampedWrapper`. One model covers all the copies, and the citations below point to
`canny_worker.js`.

Modules, one file each:

| file | module | contents |
|---|---|---|
| `grid.dfy` | `Grid` | row-major addressing, `_isCorrectIndex`, clamp-to-edge addressing |
| `pixels.dfy` | `Pixels` | byte-level model of an RGBA store |
| `buffers.dfy` | `Buffers` | the two wrapper classes |
| `grayscale.dfy` | `CannyGrayscale` | `grayscale` |
| `gradient.dfy` | `CannyGradient` | `gradientLength`, `_getPixel`, `_getSobelKernel` |
| `suppression.dfy` | `CannySuppression` | `thresholdSuppression` |
| `threshold.dfy` | `CannyThreshold` | `doubleThresholdFilter` |
| `track.dfy` | `CannyTrack` | `trackEdge` |

`pixels.dfy` covers ToUint8Clamp, the grey value, and overlays of writes on a store.

Each stage method follows the JavaScript step by step: the same loops, the same reads
through `getMid` and `_getPixel`, and the same writes through `setMid`. Its
postcondition pins the whole output to a specification function of the input:
`GrayBytes`, `MagnitudeField`/`DirectionField`, `SuppressedField`, `ThresholdBytes` or
`TrackedBytes`. Lemmas then prove what the stage promises about that function.

For `trackEdge`, the specification is written in terms of weak paths:

- a weak pixel (grey 127) is kept (255) when some pixel 8-connected to it through weak
  pixels has a strong (255) neighbour;
- otherwise it is dropped (0);
- every other pixel is untouched.

The flood fill is proved against this specification. The proof uses:

- ghost sets of visited and expanded pixels;
- the invariant that the store equals the input overlaid with the verdicts of the
  components already searched, and with zeros over the visited part of the current
  component;
- the fact that a closed visited set containing the start pixel is the whole component.

## Model

| member | source | states |
|---|---|---|
| Buffers.Uint8ClampedWrapper.constructor | canny_worker.js:4-8 | a new wrapper is empty: no store, width and height 0 |
| Buffers.Uint8ClampedWrapper.Clear | canny_worker.js:139-144 | clear() leaves the wrapper empty and valid |
| Buffers.Uint8ClampedWrapper.Empty | canny_worker.js:200-202 | on a valid wrapper, empty() is true exactly when there is no store |
| Buffers.Uint8ClampedWrapper.SetBufferDefault | canny_worker.js:9-27 | succeeds iff w > 0, h > 0 and w*h*4 <= MAX_SAFE_INTEGER; on failure the wrapper is empty; on success it holds a fresh store of w*h pixels, each black (RGB 0) and opaque (alpha 255) |
| Buffers.Uint8ClampedWrapper.SetBufferFromUint8Wrapper | canny_worker.js:75-85 | fails and leaves the wrapper empty for an empty source (the source itself, once cleared, counts as empty); otherwise copies width, height and every byte into a fresh store |
| Buffers.Uint8ClampedWrapper.SetBufferFromMoveObject | canny_worker.js:110-123 | fails and leaves the wrapper empty for a missing object or a zero width, zero height or missing buffer; otherwise takes over the dimensions and the bytes of the move object |
| Buffers.Uint8ClampedWrapper.Move | canny_worker.js:124-132 | returns the old width, height and bytes and leaves the wrapper empty; the result passes setBufferFromMoveObject's checks with a whole store (move then set is a round trip) |
| Buffers.Uint8ClampedWrapper.PixelIndex | canny_worker.js:148 | an in-bounds (x, y) addresses pixel y*width + x, whose four bytes lie inside the store |
| Buffers.Uint8ClampedWrapper.GetRGB | canny_worker.js:145-151 | getRGB(x, y) returns the red, green and blue bytes of pixel y*width + x, starting at byte (y*width + x)*4, and leaves out its alpha byte |
| Buffers.Uint8ClampedWrapper.GetMid | canny_worker.js:159-165 | getMid is a byte within one third of the mean of the pixel's red, green and blue bytes |
| Buffers.GetMidAt | canny_worker.js:159-165 | getMid(x, y) is the grey value of pixel y*width + x of the store |
| Buffers.Uint8ClampedWrapper.SetMid | canny_worker.js:187-196 | setMid writes the clamped value into the three colour bytes of (x, y) and leaves alpha and every other byte unchanged; a following getMid(x, y) returns the clamped value |
| Buffers.Uint8ClampedWrapper.SetMidOverlay | canny_worker.js:187-196 | on a store that is a base overlaid with earlier writes, one more setMid of a byte adds one entry to the overlay |
| Buffers.TypedArrayWrapper.constructor | canny_worker.js:206-214 | a new wrapper is empty and remembers the fill value of its typed array |
| Buffers.TypedArrayWrapper.Clear | canny_worker.js:240-244 | clear() leaves the wrapper empty and valid |
| Buffers.TypedArrayWrapper.Empty | canny_worker.js:237-239 | on a valid wrapper, empty() is true exactly when there is no array |
| Buffers.TypedArrayWrapper.SetBufferDefault | canny_worker.js:215-225 | succeeds iff w > 0, h > 0 and w*h <= MAX_SAFE_INTEGER; on failure the wrapper is empty; on success it holds a fresh array of w*h cells, all zero |
| Buffers.TypedArrayWrapper.SetBufferFromTypedWrapper | canny_worker.js:226-235 | fails and leaves the wrapper empty for an empty source; otherwise copies width, height and every cell into a fresh array |
| Buffers.TypedArrayWrapper.GetMid | canny_worker.js:255-258 | getMid(x, y) reads cell y*width + x |
| Buffers.TypedArrayWrapper.SetMid | canny_worker.js:259-263 | setMid(x, y, v) changes cell y*width + x to v and no other cell; getMid(x, y) then returns v |
| Pixels.MathRound | canny_worker.js:164 | Math.round: the integer n with n - 0.5 <= r < n + 0.5 |
| Pixels.RoundThird | canny_worker.js:164 | Math.round(s / 3) of a colour sum s is the integer quotient (s + 1) div 3: a third never ends in .5 |
| Pixels.MidOf | canny_worker.js:162-164 | the grey value of a pixel is a byte within one third of the mean of its colour bytes and equals (R+G+B+1) div 3 |
| Pixels.ToUint8Clamp | canny_worker.js:192-194 | the conversion of a Uint8ClampedArray store: 0 at or below 0, 255 at or above 255, otherwise the nearest integer, with ties going to the even one |
| Pixels.IntegerWrite | canny_worker.js:192-194 | writing an integer saturates it to 0..255 |
| Pixels.WithMid | canny_worker.js:190-194 | a setMid of byte c: the three colour bytes become c, the grey value becomes c, every other byte is kept |
| Pixels.DefaultPixels | canny_worker.js:19-25 | the default store: every fourth byte (alpha) is 255, all others 0 |
| Pixels.DefaultPixelsStep | canny_worker.js:20-25 | one more pass of setBufferDefault's fill loop appends the bytes 0, 0, 0, 255 |
| Pixels.Mids | canny_worker.js:159-165 | the grey image of a store: one grey value per pixel |
| Pixels.OverlayPixel | canny_worker.js:187-196 | reading back an overlaid pixel gives the written byte, or the untouched pixel's own bytes; alpha always comes from the base |
| Pixels.OverlayWrite | canny_worker.js:187-196 | a setMid on an overlaid store is the overlay with one more entry |
| Pixels.OverlayNothing | canny_worker.js:272 | an overlay with no writes is the copied store itself |
| Pixels.Written | canny_worker.js:335 | the overlay that writes every value of a field, converted to a byte |
| Grid.IndexInRange | canny_worker.js:148 | an in-bounds position has an index inside the grid |
| Grid.IndexDecode | canny_worker.js:438-439 | floor(index / width) and index - restY*width recover the row and the column of an in-bounds cell |
| Grid.IndexCoords | canny_worker.js:438-439 | every grid index is the index of the in-bounds cell (index mod w, index div w) |
| Grid.CellOf | canny_worker.js:438-448 | an index lies in column j and row k iff (j, k) is in bounds and k*w + j is that index |
| Grid.IndexInjective | canny_worker.js:448 | distinct in-bounds cells have distinct indices |
| Grid.IsCorrectIndex | canny_worker.js:508-512 | _isCorrectIndex is true exactly when 0 <= x < width and 0 <= y < height |
| Grid.ClampCoord | canny_worker.js:485-492 | a clamped coordinate is in range, and an in-range coordinate is unchanged |
| Grid.ClampNearest | canny_worker.js:485-492 | the clamped coordinate is the in-range coordinate nearest to the original |
| Grid.ClampedIndex | canny_worker.js:484-494 | _getPixel always reads an in-bounds cell, and for an in-bounds position exactly that position |
| CannyGrayscale.Luma | canny_worker.js:277 | the luminance 0.2126 R + 0.7152 G + 0.0722 B lies between the smallest and the largest colour byte |
| CannyGrayscale.GrayBytes | canny_worker.js:271-280 | the store grayscale returns, as long as its input: the copied input overlaid with every pixel's converted luminance (its per-pixel contents are in GrayPixel) |
| CannyGrayscale.GrayOver | canny_worker.js:274-279 | grayscale writes each pixel's converted luminance |
| CannyGrayscale.GrayPixel | canny_worker.js:276-278 | every output pixel is grey: its colour bytes equal the luminance, which lies between the smallest and the largest colour byte of the input pixel; its alpha is the input's |
| CannyGrayscale.GreyFixed | canny_worker.js:277 | a pixel that is already grey keeps its value |
| CannyGrayscale.GrayIdempotent | canny_worker.js:267-281 | converting twice is converting once |
| CannyGrayscale.GrayCell | canny_worker.js:276-277 | the colour getRGB reads at (x, y) is that of pixel y*width + x |
| CannyGrayscale.GrayPixelStep | canny_worker.js:276-278 | the body of the pixel loop adds pixel y*width + x to the converted prefix |
| CannyGrayscale.GrayRow | canny_worker.js:275-279 | one row of the loop converts that row's pixels, after the rows above |
| CannyGrayscale.Grayscale | canny_worker.js:267-281 | empty in gives empty out; otherwise a fresh store of the same dimensions whose every pixel holds its luminance, with alpha kept |
| CannyGradient.GetSobelKernel | canny_worker.js:495-507 | two kernels of nine taps each: kernelX is the central difference along x, weighted 1, 2, 1 along y, and kernelY is its transpose |
| CannyGradient.GetPixel | canny_worker.js:484-494 | _getPixel on a byte wrapper is the grey value at the clamped index, and getMid(x, y) when (x, y) is in bounds |
| CannyGradient.GetFieldPixel | canny_worker.js:484-494 | _getPixel on a typed array is the cell at the clamped index, and getMid(x, y) when (x, y) is in bounds |
| CannyGradient.Window | canny_worker.js:325-331 | the nine clamped pixels the convolution loops visit, in their order |
| CannyGradient.SobelX | canny_worker.js:325-331 | gx at (x, y) is kernelX applied tap by tap to the clamped window, which SobelXTaps writes out |
| CannyGradient.SobelY | canny_worker.js:325-331 | gy at (x, y) is kernelY applied tap by tap to the clamped window, which SobelYTaps writes out |
| CannyGradient.Magnitude | canny_worker.js:333 | the length sqrt(gx*gx + gy*gy) depends on the derivatives only through their absolute values |
| CannyGradient.MagnitudeField | canny_worker.js:322-334 | the length field holds one cell per pixel in row-major order; MagnitudeFieldAt gives cell y*w + x |
| CannyGradient.DirectionField | canny_worker.js:322-349 | the direction field holds one cell per pixel in row-major order; DirectionFieldAt gives cell y*w + x and DirectionFieldCodes its range |
| CannyGradient.AngleOf | canny_worker.js:337-341 | a zero gradient has angle 0; with atan2 in [-PI, PI] the angle lies in [0, PI] |
| CannyGradient.DirectionCode | canny_worker.js:343-348 | the code is 0..3: the first bucket whose bound is at least the angle, and 0 past the last bound |
| CannyGradient.ApproxDirection | canny_worker.js:343-348 | the bucket loop with its break computes DirectionCode |
| CannyGradient.DirectionFieldCodes | canny_worker.js:343-349 | every direction code of the field is 0..3 |
| CannyGradient.MagnitudeFieldAt | canny_worker.js:322-334 | cell (x, y) of the length field is sqrt(gx^2 + gy^2) of the Sobel derivatives at (x, y) |
| CannyGradient.DirectionFieldAt | canny_worker.js:322-349 | cell (x, y) of the direction field is the bucket of the angle of the Sobel gradient at (x, y) |
| CannyGradient.ConvolveNine | canny_worker.js:325-331 | the convolution loops sum the nine weighted taps |
| CannyGradient.SobelXTaps | canny_worker.js:495-507 | gx is right column minus left column, with the middle row counted twice |
| CannyGradient.SobelYTaps | canny_worker.js:495-507 | gy is bottom row minus top row, with the middle column counted twice |
| CannyGradient.ConstantWindow | canny_worker.js:325-331 | on a single-valued image every tap is that value |
| CannyGradient.ConstantImageSobel | canny_worker.js:322-331 | both kernels sum to zero, so on a constant image gx = gy = 0 everywhere |
| CannyGradient.ConstantImage | canny_worker.js:320-349 | a constant image gets length sqrt(0) and code 0 at every pixel |
| CannyGradient.ColumnImageTap | canny_worker.js:327 | on an image that varies only by column, a tap depends only on its clamped column |
| CannyGradient.ColumnImageSobelY | canny_worker.js:322-331 | such an image has gy = 0 everywhere |
| CannyGradient.ColumnImageDirection | canny_worker.js:337-349 | such an image gets code 0 everywhere, when atan2(0, gx) is 0 or PI |
| CannyGradient.ConvolveStep | canny_worker.js:328-330 | one pass of the inner loop adds the next weighted tap |
| CannyGradient.TapAt | canny_worker.js:327 | the pixel read at offset (j, i) is tap 3*(i+1) + (j+1) of the window |
| CannyGradient.SobelAt | canny_worker.js:322-331 | the convolution loops compute gx and gy, the Sobel derivatives of the grey image at (x, y) |
| CannyGradient.LengthAndDirection | canny_worker.js:333-348 | the length is sqrt(gx^2 + gy^2) and the code is the bucket of the normalised angle |
| CannyGradient.GradientAt | canny_worker.js:322-348 | the values computed at (x, y) are cell y*w + x of the length field and of the direction field |
| CannyGradient.GradientCell | canny_worker.js:322-348 | the Sobel derivatives at (x, y) decide cell y*w + x of the length field and of the direction field |
| CannyGradient.GradientPrefixStart | canny_worker.js:311-313 | before the pixel loop each output holds its initial contents |
| CannyGradient.GradientPrefixEnd | canny_worker.js:320-350 | after the loop the outputs are the two fields and the visualisation |
| CannyGradient.GradientPixel | canny_worker.js:322-349 | the body of the pixel loop writes cell y*w + x of all three outputs, after the cells before it |
| CannyGradient.GradientRow | canny_worker.js:321-350 | one row of the pixel loop |
| CannyGradient.GradientLoop | canny_worker.js:320-350 | the row loop fills every cell |
| CannyGradient.GradientRows | canny_worker.js:320-350 | gradLen ends as the length field, angleApprox as the direction field, and the copied store as the clamped lengths over the input |
| CannyGradient.GradientLength | canny_worker.js:303-353 | empty in gives three empty outputs; otherwise three fresh outputs of the input's size: the length field, the direction field (codes 0..3), and the input with every pixel's clamped length |
| CannySuppression.PrevIndex | canny_worker.js:374-376 | the previous neighbour along direction d, clamped to the grid |
| CannySuppression.NextIndex | canny_worker.js:377-379 | the next neighbour is the opposite step of the previous one, clamped to the grid |
| CannySuppression.SuppressedAt | canny_worker.js:369-389 | a cell keeps its length when it is strictly above its previous neighbour and at least its next one, and is 0 otherwise |
| CannySuppression.SuppressedField | canny_worker.js:369-389 | the suppressed length of every cell, one per pixel |
| CannySuppression.SuppressedLocalMaximum | canny_worker.js:382-388 | a cell keeps its length iff it is strictly above its previous neighbour and at least its next one; otherwise it becomes 0 |
| CannySuppression.SuppressedIsInputOrZero | canny_worker.js:381-388 | every output cell is the input length or 0 |
| CannySuppression.SelfNeighbourSuppressed | canny_worker.js:374-388 | a cell whose clamped previous neighbour is itself is always suppressed, by the gradVal === prevGrad rule |
| CannySuppression.LeftColumnHorizontalSuppressed | canny_worker.js:364-388 | a left-column cell with direction 0 is such a cell |
| CannySuppression.ConstantFieldSuppressed | canny_worker.js:382-388 | a field of equal lengths is suppressed everywhere |
| CannySuppression.SuppressRead | canny_worker.js:371-372 | the loop reads cell y*w + x of both fields, and the code read is 0..3 |
| CannySuppression.SuppressedAtCell | canny_worker.js:374-388 | the suppressed value of cell y*w + x, in terms of (x, y) and the offset tables |
| CannySuppression.SuppressFormula | canny_worker.js:371-388 | the values the loop reads from the unmodified gradLen decide the cell's suppressed value |
| CannySuppression.SuppressPixel | canny_worker.js:371-388 | the body of the pixel loop sets cell y*w + x of both outputs to its suppressed value, after the cells before it |
| CannySuppression.SuppressWrite | canny_worker.js:381-388 | the writes: the clamped length into the store, then 0 into both outputs when the cell is suppressed |
| CannySuppression.SuppressCell | canny_worker.js:383-384 | the two zero writes of a suppressed cell |
| CannySuppression.ZeroStep | canny_worker.js:383-384 | writing 0 over any byte extends both output prefixes for a suppressed cell |
| CannySuppression.KeepStep | canny_worker.js:381 | a surviving cell is already right in the copied field, and its clamped length is right in the store |
| CannySuppression.SuppressRow | canny_worker.js:370-389 | one row of the pixel loop |
| CannySuppression.SuppressLoop | canny_worker.js:369-389 | the row loop fills every cell |
| CannySuppression.ThresholdSuppression | canny_worker.js:354-392 | empty in gives empty out; otherwise a fresh copy of the size holding the suppressed field, and a default store showing it clamped to bytes |
| CannyThreshold.Low | canny_worker.js:400-404 | after the swap the first threshold is the smaller of the two given |
| CannyThreshold.High | canny_worker.js:400-404 | after the swap the second threshold is the larger of the two given |
| CannyThreshold.Classify | canny_worker.js:409-413 | the class is 0, 127 or 255; 0 exactly at or below the low threshold; with ordered thresholds 255 exactly above the high one |
| CannyThreshold.Classes | canny_worker.js:408-413 | each pixel's class is 0, 127 or 255 by the ordered thresholds |
| CannyThreshold.ThresholdBytes | canny_worker.js:397-417 | the filtered store keeps the size of the magnitude field |
| CannyThreshold.ThresholdPixel | canny_worker.js:408-414 | every pixel is grey and opaque: 0 iff the magnitude is at most both thresholds, 255 iff it exceeds both, and 127 iff it lies above one and at most the other |
| CannyThreshold.ThresholdSymmetric | canny_worker.js:400-404 | swapping the two thresholds gives the same store |
| CannyThreshold.ThresholdRow | canny_worker.js:407-415 | one row of the loop writes that row's classes, after the rows above |
| CannyThreshold.DoubleThresholdFilter | canny_worker.js:393-418 | empty in gives empty out; otherwise a fresh store of the same size equal to ThresholdBytes |
| CannyTrack.TrackedOver | canny_worker.js:426-463 | each weak pixel gets its verdict and every other pixel no write |
| CannyTrack.TrackedBytes | canny_worker.js:419-466 | the result keeps the size of the copied store |
| CannyTrack.ScanOver | canny_worker.js:426-428 | once the scan has passed i, each weak pixel of an already-searched component has its verdict |
| CannyTrack.Paint | canny_worker.js:433-461 | painting a set of pixels with one byte |
| CannyTrack.ConnectedEnds | canny_worker.js:446 | both ends of a weak path are weak |
| CannyTrack.ConnectedSelf | canny_worker.js:431 | a weak pixel is in its own component |
| CannyTrack.ConnectedExtend | canny_worker.js:440-450 | a weak pixel in the 3x3 window of a member joins the component |
| CannyTrack.ConnectedTrans | canny_worker.js:435-455 | connectivity is transitive |
| CannyTrack.ConnectedSym | canny_worker.js:435-455 | connectivity is symmetric |
| CannyTrack.UnresolvedSpread | canny_worker.js:426-428 | a component is searched all at once: a pixel connected to an unsearched one is unsearched |
| CannyTrack.VerdictShared | canny_worker.js:457-462 | all pixels of one component share the kept flag and the verdict |
| CannyTrack.ScanStart | canny_worker.js:424-426 | before the scan nothing is written |
| CannyTrack.ScanEnd | canny_worker.js:426-463 | after the scan every weak pixel has its verdict |
| CannyTrack.ResolvedNext | canny_worker.js:426-428 | passing pixel i marks searched exactly the component of i |
| CannyTrack.ScanSkip | canny_worker.js:428 | passing a pixel that does not read 127 writes nothing |
| CannyTrack.ScanComponent | canny_worker.js:428-463 | passing an unsearched weak pixel writes its verdict over its component |
| CannyTrack.PaintAdd | canny_worker.js:447 | painting one more pixel |
| CannyTrack.PaintNothing | canny_worker.js:431-433 | painting no pixel |
| CannyTrack.PaintOver | canny_worker.js:458-462 | the 255 paint over the zeroed component replaces the zeros |
| CannyTrack.SubsetSize | canny_worker.js:435 | the visited set never exceeds the pixel count, which bounds the while loop |
| CannyTrack.ClosedComponent | canny_worker.js:435-455 | when no frontier is left, the visited pixels are the whole weak component of the start pixel |
| CannyTrack.SetsPush | canny_worker.js:447-450 | pushing a weak, unvisited neighbour keeps buffAll free of duplicates and inside the component, and grows the visited set by one |
| CannyTrack.CellRead | canny_worker.js:442-443 | a neighbour read during the search is in bounds and reads 0 when visited and its own grey value otherwise |
| CannyTrack.SearchMid | canny_worker.js:443 | during a search a pixel reads 0 when visited, and otherwise its input grey value |
| CannyTrack.VisitCell | canny_worker.js:442-451 | one neighbour: a weak one ends up visited, and the flag is set iff the neighbour is strong |
| CannyTrack.PushCell | canny_worker.js:446-450 | a weak neighbour is zeroed before it is pushed onto buffAll and buffNext, exactly once |
| CannyTrack.GrowsTrans | canny_worker.js:440-454 | two search steps grow the search by what both added |
| CannyTrack.RowStep | canny_worker.js:441-451 | one more cell of a window row is done |
| CannyTrack.ExpandRow | canny_worker.js:441-452 | one window row: its weak cells end up visited, and the flag records a strong cell |
| CannyTrack.WindowStep | canny_worker.js:440-452 | one more window row is done |
| CannyTrack.WindowClosed | canny_worker.js:440-452 | after the whole window every weak neighbour is visited |
| CannyTrack.WindowTouches | canny_worker.js:440-452 | the window has a strong cell iff the pixel touches a strong pixel |
| CannyTrack.ExpandPixel | canny_worker.js:438-452 | expanding one pixel visits all its weak neighbours, and sets the flag iff it touches a strong pixel |
| CannyTrack.DoneStep | canny_worker.js:437-453 | expanding a pixel keeps the expanded set closed under weak neighbours |
| CannyTrack.ExpandLayer | canny_worker.js:436-454 | one frontier: every pixel of buffCurr is expanded, and the new pixels form buffNext |
| CannyTrack.KeptComponent | canny_worker.js:457 | some member of the component touches a strong pixel iff the start pixel is kept |
| CannyTrack.SearchComponent | canny_worker.js:429-455 | the while loop terminates with buffAll holding each pixel of the component exactly once, all zeroed, and the flag set iff the component is kept |
| CannyTrack.RestoreComponent | canny_worker.js:457-462 | with the flag set, the zeroed component is repainted 255 |
| CannyTrack.ScanMid | canny_worker.js:428 | the scan reads 127 at (x, y) iff the pixel is weak and its component has not been searched |
| CannyTrack.ScanValue | canny_worker.js:428 | the same, on the overlaid store |
| CannyTrack.TrackPixel | canny_worker.js:427-463 | the body of the scan at (x, y) resolves the component of an unsearched weak pixel and otherwise changes nothing |
| CannyTrack.TrackRow | canny_worker.js:427-463 | one row of the scan |
| CannyTrack.TrackEdge | canny_worker.js:419-466 | empty in gives empty out; otherwise a fresh store of the same dimensions equal to TrackedBytes, the input with each weak pixel set to its verdict |
| CannyTrack.TrackedPixel | canny_worker.js:426-465 | no 127 is left; a weak pixel ends 255 iff its component touches a strong pixel and 0 otherwise; every other pixel keeps all four bytes; alpha is kept |
| CannyTrack.TrackedNoWeak | canny_worker.js:426-465 | an image without weak pixels comes back unchanged |
| CannyTrack.TrackedIdempotent | canny_worker.js:419-466 | tracking twice is tracking once |
| CannyTrack.TrackedStrong | canny_worker.js:444-461 | a result pixel is 255 iff it was 255, or it was weak and kept: strong pixels stay strong |
| CannyTrack.StrongNeighbourKept | canny_worker.js:444-445 | a weak pixel next to a strong pixel is kept |
| CannyTrack.NeighboursShareVerdict | canny_worker.js:440-450 | two weak pixels in one 3x3 window end with the same value |
| CannyTrack.PathStaysIn | canny_worker.js:440-450 | a weak path starting in a set closed under weak neighbours stays in it |
| CannyTrack.EnclosedWeakDropped | canny_worker.js:457 | a weak pixel in a closed set with no strong neighbour is dropped |
| CannyTrack.NoStrongAllDropped | canny_worker.js:426-465 | without any strong pixel every weak pixel ends at 0 |

## Left out

- Image acquisition is not modelled. This covers `setBufferFromImage`, `setBufferFromContext`
  and `asyncSetBufferFromFile`: they need the DOM canvas, `Image`, `URL` and Promises.
- The worker harness is not modelled. This covers `mainWorker`, the message handler and
  `postMessage` with transferred buffers: it is asynchronous message passing. The UI and the
  scheduler in `canny_edge_detector.js` are left out for the same reason.
- `smoothing` and `_createGaussKernel` are not modelled: they use `Math.exp` and a normalised
  floating-point weighted sum.
- `getRGBA`, `setRGB`, `setRGBA`, `getInnerUint8ClampedArray`, `getInnerTypedBuffer` and the
  `width()`/`height()` getters are not separate members. No modelled stage uses the first
  three. The model reads the last four as fields.
- Floating point is modelled as exact real arithmetic.
  - Magnitudes, the luminance and the angle are `real` values.
  - `Math.sqrt` and `Math.atan2` are function parameters.
  - `PI` is the decimal literal of `Math.PI`.
  - A luminance that sits exactly on a .5 boundary in exact arithmetic may round
    differently in doubles.
  - NaN and infinities do not occur.
- The TypedArrayWrapper constructor takes the fill value of the typed array instead of a
  constructor function. So its throw on a missing constructor is not modelled.
- Uint8Array's modular conversion of stored values is not modelled. The only Uint8Array
  is angleApprox, and it receives direction codes 0..3 only.
- Buffers.Uint8ClampedWrapper.GetMid and the other pixel accessors require in-bounds
  coordinates. The source's bounds checks are commented out, and every caller in the core
  stays in bounds.
- Buffers.Uint8ClampedWrapper.Move returns None on an empty wrapper. There the source
  dereferences a null store and throws.
- Buffers.Uint8ClampedWrapper.SetBufferFromMoveObject copies the move object's bytes into a
  fresh store. The source wraps the transferred ArrayBuffer in a new Uint8ClampedArray view
  without copying. Writes through the wrapper and through any other view of that buffer are
  therefore shared there, and that sharing is not modelled.
- Buffers.Uint8ClampedWrapper.SetBufferFromMoveObject requires that a move object passing
  its checks describes a whole store of width*height*4 bytes within MAX_SAFE_INTEGER. This
  is what every `move()` result satisfies (`Move` ensures it). The source does not check
  the length. JavaScript's falsy tests on the fields become zero and missing-value tests.
- CannySuppression.ThresholdSuppression requires width*height*4 <= MAX_SAFE_INTEGER. It
  also requires every direction code to be 0..3, which `gradientLength` guarantees.
  Otherwise the source writes into the store of a failed allocation, or indexes its offset
  tables out of range.
- CannyThreshold.DoubleThresholdFilter requires width*height*4 <= MAX_SAFE_INTEGER.
  Otherwise the source writes into the store of a failed allocation.
