# sxtdi: a Dafny model of the drift-scan (TDI) core

`sxtdi` drives a Starlight Xpress CCD camera in time-delay-integration mode. The sky drifts
across a fixed sensor, and the camera is read one row at a time, in step with the drift. This
project models the logic beneath the program's wxWidgets window and proves properties of it.
There are seven modules, one per file:

- `Samples` (`samples.dfy`): 16-bit samples, row-major frames, the `max` macro and C's
  float-to-int truncation.
- `DisplayRamp` (`display_ramp.dfy`): `LUT_INDEX` and `calcRamp`. These fill the two
  1024-entry display tables `redLUT` and `blugrnLUT` in a loop.
- `Centroid` (`centroid.dfy`): `calcCentroid`. This is the intensity-weighted centroid of the
  pixels above a threshold in a box.
- `StarFinder` (`star_finder.dfy`): `findBestCentroid`.
  - It clamps the search window and scans it for 4-neighbour local maxima.
  - It grows the two radii of each maximum and rejects blobs that reach a cap.
  - It keeps the brightest survivor.
  - The nested loop is a method proved against a step function `Step` and the invariant
    `Inv`. The result is stated by `Reports`.
- `FrameTransform` (`frame_transform.dfy`):
  - the vertical flip of an alignment frame;
  - the 90° counter-clockwise copy of a window into the RGB image, through the tables;
  - per-channel `max` accumulation while aligning, overwrite while scanning;
  - min/max tracking and the ramp recomputed from those extremes, through `RampLevels`, which
    widens equal extremes to a span of one level.
- `ScanSession` (`scan_session.dfy`): the `ScanFrame` window as a class `Scanner`.
  - Its fields are the scan state, the timer, the scan buffer `tdiFrame` (an `array?`), the
    row counters, the measured exposure and rate, and the tracked star.
  - Its methods are the handlers `OnAlign`, `OnDuration`, `OnScan`, `OnStop`, `OnNew`,
    `OnFilter` and `OnTimer`. `OnTimer` dispatches to `DoAlign` or `DoTDI`.
  - `Valid()` is the invariant every handler keeps.
- `CameraModel` (`camera_model.dfy`): the `-m` camera-model override parsed in
  `OnCmdLineParsed`, as a rule over a 32-bit model code.

Camera reads are parameters of the model. `raw` is the frame `sxReadPixels` returns, and `row`
is one scan row. Whether the window has a non-empty client area is the boolean `shown`. The
star-detection threshold is the integer parameter `threshold`.

## Model

| member | source | states |
|---|---|---|
| Samples.Max | wx/sxtdi/sxtdi.cpp:51 | the result is one of the two arguments and at least both |
| Samples.Trunc | wx/sxtdi/sxtdi.cpp:107-108 | a C float-to-int cast: rounds toward zero, so for a non-negative value it is the floor and for a negative value the ceiling |
| DisplayRamp.LutIndex | wx/sxtdi/sxtdi.cpp:50 | every 16-bit sample maps to an index below 1024, the one whose 64-sample bucket contains it |
| DisplayRamp.RampEntry | wx/sxtdi/sxtdi.cpp:62-71 | an entry at or below `LUT_INDEX(black) - 1` is black (0) |
| DisplayRamp.RampSaturatesAtWhite | wx/sxtdi/sxtdi.cpp:66-71 | every entry from `LUT_INDEX(white)` upward is full white (255) |
| DisplayRamp.RampMonotone | wx/sxtdi/sxtdi.cpp:66-71 | the ramp never decreases with the index |
| DisplayRamp.RedTable | wx/sxtdi/sxtdi.cpp:65-71 | the red table has 1024 entries |
| DisplayRamp.RampPrefixAt | wx/sxtdi/sxtdi.cpp:65-71 | entry k of the table built so far is the ramp value for index k |
| DisplayRamp.BlugrnTable | wx/sxtdi/sxtdi.cpp:72 | the blue/green table has 1024 entries |
| DisplayRamp.TableEntry | wx/sxtdi/sxtdi.cpp:65-72 | red entry k is the ramp value of bucket k; blue/green entry k is 0 under the red filter and the red entry otherwise |
| DisplayRamp.CalcRamp | wx/sxtdi/sxtdi.cpp:58-74 | after the loop the arrays hold exactly the red and blue/green tables for (black, white, filter). So every entry is rewritten, and equal arguments give equal tables |
| DisplayRamp.RampScale | wx/sxtdi/sxtdi.cpp:64 | the scale `MAX_PIX / (white - black)` is undefined exactly when black == white; otherwise scale × (white − black) = MAX_PIX |
| DisplayRamp.UniformWindowDegenerate | wx/sxtdi/sxtdi.cpp:457-474 | for a uniform window, the tracked min and max are equal, so the scale the ramp divides by is undefined |
| DisplayRamp.RampLevels | wx/sxtdi/sxtdi.cpp:474 | the levels the ramp is given always satisfy black < white. An ordered pair passes unchanged; a degenerate pair becomes a span of one that contains the observed level |
| DisplayRamp.DegenerateRampIsStep | wx/sxtdi/sxtdi.cpp:64-72 | when both extremes equal one level, the guarded red table is 0 in every bucket below that level's bucket and 255 from it on |
| Centroid.Weight | wx/sxtdi/sxtdi.cpp:89-94 | a counted pixel weighs between 0 and its own value |
| Centroid.RowBounds | wx/sxtdi/sxtdi.cpp:87-94 | over one row of the box the mass is non-negative, and the x-moment lies between first-column × mass and last-column × mass |
| Centroid.BoxBounds | wx/sxtdi/sxtdi.cpp:87-94 | over the box the mass is non-negative, and both moments lie between the first and last coordinate times the mass |
| Centroid.QuotientBetween | wx/sxtdi/sxtdi.cpp:95-99 | dividing such a moment by a positive mass gives a coordinate between the bounds |
| Centroid.CentroidInBox | wx/sxtdi/sxtdi.cpp:78-100 | with no pixel above `min` the centroid is (0, 0); otherwise it lies inside `[x−xr, x+xr] × [y−yr, y+yr]` |
| Centroid.CalcCentroid | wx/sxtdi/sxtdi.cpp:78-100 | the loops compute the weighted mean of the box over pixels strictly above `min`; each coordinate is 0 or inside the box |
| StarFinder.ClampWindow | wx/sxtdi/sxtdi.cpp:107-128 | the window lies inside the frame minus the caps and inside seed ± range; each bound is one of those two candidates |
| StarFinder.SearchOf | wx/sxtdi/sxtdi.cpp:125-128 | with caps of at least 1, the clamped window keeps each cap's distance from every frame edge. That is what keeps every neighbour test, radius probe and centroid-box read inside the frame |
| StarFinder.GrowY | wx/sxtdi/sxtdi.cpp:165-167 | the y-radius stops at the first offset where neither the pixel above nor the one below is over the threshold, or at cap + 1 |
| StarFinder.GrowX | wx/sxtdi/sxtdi.cpp:168-170 | the same for the x-radius, with the left and right pixels |
| StarFinder.StepKeepsSelection | wx/sxtdi/sxtdi.cpp:143-180 | after each cell the held peak is the brightest acceptable cell seen so far, the earliest among equals, and `pixel_max` is its value or the threshold |
| StarFinder.StepKeepsCentroid | wx/sxtdi/sxtdi.cpp:174-179 | after each cell the centroid and rounded position are those of the held peak, or the seed when there is none |
| StarFinder.StepKeepsRadius | wx/sxtdi/sxtdi.cpp:165-170 | after each cell the radii are those of the last candidate measured |
| StarFinder.StepKeepsQuiet | wx/sxtdi/sxtdi.cpp:143-170 | after each cell no local maximum scanned since the last measured candidate is brighter than `pixel_max`, so none of them had its radii measured |
| StarFinder.StepKeepsInv | wx/sxtdi/sxtdi.cpp:139-185 | one cell of the scan keeps the whole loop invariant |
| StarFinder.RowWrap | wx/sxtdi/sxtdi.cpp:139-141 | finishing a row and starting the next keeps the invariant |
| StarFinder.InitialInv | wx/sxtdi/sxtdi.cpp:107-118 | the invariant holds before the scan, with no peak held |
| StarFinder.BestIsUnique | wx/sxtdi/sxtdi.cpp:143-176 | the strict `>` test makes the best cell unique: the brightest acceptable cell, the first in row-major order among equals |
| StarFinder.LastCandidateUnique | wx/sxtdi/sxtdi.cpp:165-170 | at most one cell can be the last candidate measured for a given best cell |
| StarFinder.ReportsDetermined | wx/sxtdi/sxtdi.cpp:101-193 | the frame, window and seed determine the search's whole result: found, centroid and both radii |
| StarFinder.RoundedCandidateNonNegative | wx/sxtdi/sxtdi.cpp:178-179 | the rounded position of an accepted peak is non-negative, so `x >= 0 && y >= 0` signals success |
| StarFinder.ScanOutcome | wx/sxtdi/sxtdi.cpp:186-192 | at the end of the scan the invariant yields the reported result |
| StarFinder.Examine | wx/sxtdi/sxtdi.cpp:143-183 | the loop body on one cell does what `Step` does |
| StarFinder.ScanRow | wx/sxtdi/sxtdi.cpp:141-184 | the inner loop over one row keeps the invariant and ends at the row's end |
| StarFinder.ScanWindow | wx/sxtdi/sxtdi.cpp:139-185 | the nested loops end with the invariant over the whole window |
| StarFinder.FindBestCentroid | wx/sxtdi/sxtdi.cpp:101-193 | success holds exactly when some cell is acceptable: above the threshold, at least its four neighbours, both radii below their caps. On failure the seed centroid and the caps are untouched. On success the centroid is that of the best cell, and the radii are those of the last candidate measured: the best cell itself, or a later local maximum that was brighter than it and failed a cap, with no brighter local maximum after it. Not necessarily the accepted cell |
| FrameTransform.FlipSource | wx/sxtdi/sxtdi.cpp:418-419 | the flip's source index lies inside the frame |
| FrameTransform.FlipSourceAt | wx/sxtdi/sxtdi.cpp:418-419 | pixel (i, j) of the stored frame comes from pixel (i, H−1−j) of the raw frame |
| FrameTransform.Flipped | wx/sxtdi/sxtdi.cpp:418-419 | the flipped frame has the same shape |
| FrameTransform.FlippedAt | wx/sxtdi/sxtdi.cpp:418-419 | the flipped frame's row r is the raw frame's row H−1−r |
| FrameTransform.FlipInvolution | wx/sxtdi/sxtdi.cpp:418-419 | flipping twice gives the original frame back |
| FrameTransform.RowCopySource | wx/sxtdi/sxtdi.cpp:419 | the `memcpy` of row r reads from row H−1−r, at the same column |
| FrameTransform.FlipInto | wx/sxtdi/sxtdi.cpp:418-419 | after the loop the alignment frame is the raw frame flipped |
| FrameTransform.SourceIndexInRange | wx/sxtdi/sxtdi.cpp:460-471 | every sample the rotating copy reads lies inside the window |
| FrameTransform.RenderedPixel | wx/sxtdi/sxtdi.cpp:460-471 | image pixel (y, x) shows window row x, column W−1−y |
| FrameTransform.SourceIndexOnto | wx/sxtdi/sxtdi.cpp:460-471 | every window sample is shown at some image pixel |
| FrameTransform.Shade | wx/sxtdi/sxtdi.cpp:467-469 | accumulating keeps the larger of the old and the table value; otherwise the table value replaces the old one |
| FrameTransform.RenderedImage | wx/sxtdi/sxtdi.cpp:460-473 | the image has three bytes per window sample, like the one it replaces |
| FrameTransform.RenderedImagePixel | wx/sxtdi/sxtdi.cpp:460-473 | the red channel of pixel (y, x) is shaded from the red table at the shown sample's index; the green and blue channels are shaded from the blue/green table |
| FrameTransform.RenderAccumulates | wx/sxtdi/sxtdi.cpp:467-469 | while aligning no channel decreases; while scanning the image does not depend on what it replaces |
| FrameTransform.ExtremesStep | wx/sxtdi/sxtdi.cpp:465-466 | the two comparisons keep the tracked min and max as the extremes of the samples read so far |
| FrameTransform.ImageTriple | wx/sxtdi/sxtdi.cpp:467-469 | the three bytes written for the p-th sample read are those of the rendered image |
| FrameTransform.PaintPixel | wx/sxtdi/sxtdi.cpp:467-470 | painting one sample extends the prefix of the image that is already rendered |
| FrameTransform.ReadShown | wx/sxtdi/sxtdi.cpp:462-471 | the walking read (start at column W−1−y, step one row) reads the shown sample |
| FrameTransform.RenderImageRow | wx/sxtdi/sxtdi.cpp:462-472 | the inner loop renders one image row and keeps the extremes |
| FrameTransform.Render | wx/sxtdi/sxtdi.cpp:457-473 | the loops leave the rendered image, and the tracked min and max are the window's minimum and maximum |
| FrameTransform.SeqMin | wx/sxtdi/sxtdi.cpp:458-466 | the minimum occurs in the window and bounds every sample from below |
| FrameTransform.SeqMax | wx/sxtdi/sxtdi.cpp:457-465 | the maximum occurs in the window and bounds every sample from above |
| FrameTransform.TrackedBoundsAreExtremes | wx/sxtdi/sxtdi.cpp:457-466 | bounds that occur in the window and enclose it are its minimum and maximum |
| FrameTransform.Present | wx/sxtdi/sxtdi.cpp:457-474 | the image is rendered with the old tables, then the tables become the ramp of `RampLevels` of the window's extremes |
| ScanSession.ScanLengthCoversDuration | wx/sxtdi/sxtdi.cpp:595-597 | the scan is at least one sensor height long. Unless clamped it is the number of whole exposures in the duration; when clamped, the duration is shorter than H + 1 exposures |
| ScanSession.TdiWindowPlacement | wx/sxtdi/sxtdi.cpp:503 | the window lies inside the buffer. Before row H it includes the row just read; from row H on it ends exactly where that row begins |
| ScanSession.RowWrittenExactly | wx/sxtdi/sxtdi.cpp:485-495 | storing a row writes the samples of row `tdiRow` and leaves every other sample unchanged |
| ScanSession.ExposureMatchesRate | wx/sxtdi/sxtdi.cpp:446-450 | the exposure is the whole number of milliseconds one row takes at the measured rate: e × rate ≤ 1000 < (e + 1) × rate |
| ScanSession.Zeroed | wx/sxtdi/sxtdi.cpp:598-599 | a fresh buffer of the given size, all zeros |
| ScanSession.Scanner.constructor | wx/sxtdi/sxtdi.cpp:344-370 | the session starts IDLE with no scan, no duration, exposure or rate, and the filter off. The tables hold the full-range ramp. Without a camera the frame is 512 by 512 |
| ScanSession.Scanner.OnFilter | wx/sxtdi/sxtdi.cpp:641-644 | only the filter setting changes |
| ScanSession.Scanner.OnDuration | wx/sxtdi/sxtdi.cpp:560-570 | an accepted reply of h hours (1..12) sets the duration to 60·h minutes; a cancel changes nothing |
| ScanSession.Scanner.OnAlign | wx/sxtdi/sxtdi.cpp:536-559 | from IDLE with a camera: ALIGNING, the timer at `ALIGN_EXP`, a black image, rate and frame count reset, the exposure kept. Otherwise nothing changes |
| ScanSession.Scanner.OnScan | wx/sxtdi/sxtdi.cpp:571-606 | nothing but a requested duration changes unless the session is IDLE, has a camera, holds no scan, has a measured exposure and has a duration (asked for when missing). Then a zeroed buffer of `ScanLength` rows is allocated, the row is 0, the timer runs at the exposure and the state is SCANNING |
| ScanSession.Scanner.StartScan | wx/sxtdi/sxtdi.cpp:598-603 | allocation and start of a scan of the given length |
| ScanSession.Scanner.OnStop | wx/sxtdi/sxtdi.cpp:607-616 | with the timer running: IDLE, timer stopped, and the length cut to the rows read when scanning. Otherwise nothing changes |
| ScanSession.Scanner.OnNew | wx/sxtdi/sxtdi.cpp:617-627 | the buffer is dropped whatever the state; a scan in progress is left without its buffer exactly when the call came during a scan |
| ScanSession.Scanner.OnNewWhenIdle | wx/sxtdi/sxtdi.cpp:617-627 | the corrected command drops the buffer only outside a scan, so a scan always keeps its buffer |
| ScanSession.Scanner.Show | wx/sxtdi/sxtdi.cpp:457-474 | the window is rendered with the current tables, then the tables become the ramp of `RampLevels` of its extremes |
| ScanSession.Scanner.AcquireStar | wx/sxtdi/sxtdi.cpp:420-435 | the first frame is searched from the top centre over the frame minus its bottom quarter. A star found there becomes the reference and the tracked position, and one frame is counted |
| ScanSession.Scanner.StartTrack | wx/sxtdi/sxtdi.cpp:429-434 | a detection sets the tracked position and counts the first frame; a miss keeps the seed as the reference |
| ScanSession.Scanner.FollowStar | wx/sxtdi/sxtdi.cpp:436-452 | a later frame is searched in a narrow window around the tracked star, only while it is more than one frame's drift above the bottom |
| ScanSession.Scanner.MeasureRate | wx/sxtdi/sxtdi.cpp:446-450 | exposure, rate and frame count change only on a detection below the reference; a miss does not count the frame |
| ScanSession.Scanner.DoAlign | wx/sxtdi/sxtdi.cpp:405-482 | the frame is stored flipped, the star is acquired or followed, and when shown the image accumulates and the tables become the ramp of `RampLevels` of the frame's extremes |
| ScanSession.Scanner.StoreRow | wx/sxtdi/sxtdi.cpp:485-495 | the camera row lands in row `tdiRow` of the buffer and nowhere else |
| ScanSession.Scanner.DoTDI | wx/sxtdi/sxtdi.cpp:483-528 | the row is stored. When shown, the window in the buffer is rendered by overwriting and the tables become the ramp of `RampLevels` of its extremes. The row advances by one, and at the scan length the timer stops and the state is IDLE |
| ScanSession.Scanner.Advance | wx/sxtdi/sxtdi.cpp:523-527 | the row advances by one and the scan ends at its length |
| ScanSession.Scanner.OnTimer | wx/sxtdi/sxtdi.cpp:529-535 | a tick while scanning stores a row, renders the window when shown and advances the row, stopping at the scan length. A tick while aligning stores the frame flipped and acquires or follows the star, with the search's result and radii returned, and renders when shown. The tick faults exactly when it comes during a scan whose buffer was dropped, and then changes nothing |
| ScanSession.NewDuringScan | wx/sxtdi/sxtdi.cpp:617-627 | `OnNew` during a scan, then a tick: the tick faults |
| ScanSession.NewWhenIdleDuringScan | wx/sxtdi/sxtdi.cpp:617-627 | the corrected command during a scan, then a tick: no fault |
| CameraModel.Upper | wx/sxtdi/sxtdi.cpp:279 | ASCII `toupper`: lower-case letters move up 32 code points, everything else is unchanged |
| CameraModel.SetInterlace | wx/sxtdi/sxtdi.cpp:287 | sets the interlace bit and leaves every other field of the code alone |
| CameraModel.ClearInterlace | wx/sxtdi/sxtdi.cpp:284 | clears the interlace bit and leaves every other field alone |
| CameraModel.ApplyType | wx/sxtdi/sxtdi.cpp:281-291 | H clears the interlace bit, M sets it, any other letter keeps the code |
| CameraModel.SetNumber | wx/sxtdi/sxtdi.cpp:297 | keeps the two flag bits, replaces the model number and clears the bits above the low byte |
| CameraModel.ApplyNumber | wx/sxtdi/sxtdi.cpp:292-301 | an accepted digit replaces the number; anything else keeps the code |
| CameraModel.SetColor | wx/sxtdi/sxtdi.cpp:303 | sets the colour bit and leaves every other field alone |
| CameraModel.ClearColor | wx/sxtdi/sxtdi.cpp:305 | clears the colour bit and leaves every other field alone |
| CameraModel.ApplyColor | wx/sxtdi/sxtdi.cpp:302-305 | C sets the colour bit, anything else clears it |
| CameraModel.Apply | wx/sxtdi/sxtdi.cpp:279-308 | a non-SX request keeps the code. An SX request leaves exactly the requested fields |
| CameraModel.Designate | wx/sxtdi/sxtdi.cpp:271-312 | an override whose second character is not X leaves the model code unchanged |
| CameraModel.DesignateColor | wx/sxtdi/sxtdi.cpp:302-305 | under an SX designation the colour bit follows the fourth character alone |
| CameraModel.DesignateType | wx/sxtdi/sxtdi.cpp:281-291 | under an SX designation H clears the interlace bit, M sets it, any other letter keeps it |
| CameraModel.DesignateNumber | wx/sxtdi/sxtdi.cpp:292-298 | under an SX designation an accepted digit becomes the model number and the bits above the low byte are cleared |
| CameraModel.DesignateNoNumber | wx/sxtdi/sxtdi.cpp:299-301 | under an SX designation any other third character keeps the number and the high bits |
| CameraModel.FullDesignationIgnoresModel | wx/sxtdi/sxtdi.cpp:279-305 | a designation that names the type and a number fixes the whole code, whatever the previous code |
| CameraModel.DesignateIdempotent | wx/sxtdi/sxtdi.cpp:271-312 | giving the same override twice has the effect of giving it once |

## Left out

- The threshold statistics of `findBestCentroid` are left out: the float mean, standard
  deviation and `sqrt` at lines 117-138. The threshold `pixel_min` is a parameter instead.
- The `pow` gamma curve of `calcRamp` is left out. `pixelGamma` is always 1.0, so the ramp is
  linear. It is computed exactly, as the floor of 255 × the clamped fraction, so float rounding
  is not modelled.
- The exposure and rate formulas (lines 448-449) are computed over `real`. C's `float`
  rounding is not modelled; the truncation to `int` is.
- The centroid and the star positions are `real`, not `float`.
- All wxWidgets plumbing is left out as GUI: the event table, menus, `OnPaint`, bitmap scaling,
  the status bar, the dialog box and window sizing, including the loop at lines 373-377. The
  dialog's outcome is a parameter of `OnDuration` and `OnScan`.
- The alignment grid in `OnAlign` (lines 544-553) is cosmetic: the model paints the image black
  and does not draw the grid.
- Camera driver calls (`sxOpen`, `sxGetModel`, `sxGetFrameDimensions`, `sxClearFrame`,
  `sxReadPixels`) are foreign. Their results are parameters: whether a camera opened, its size,
  the frame `raw` and the row `row`.
- Camera presence is `hasCamera`, which stands for a non-zero `ccdModel` after start-up.
- `malloc` failure and the 32-bit overflow of `tdiLength * ccdFrameWidth` and
  `tdiMinutes * 60000` are not modelled. Sizes and counters are unbounded integers.
- Without a camera the source leaves `ccdFrame` null. The model keeps a frame array, but no
  handler reads it without a camera, because the timer never starts.
- Fields the constructor leaves uninitialised (`tdiLength`, `tdiRow`, `numFrames`, the tracked
  star) start at 0 in the model.
- The `printf` and `wxLogMessage` diagnostics and the status-bar text are left out.
- `OnSave` (an empty stub), `OnExit` and `OnAbout` are left out: they hold no model state.
- A tick is one call of `OnTimer`; timer scheduling is not modelled.
- `DoTDI` advances the row counter after rendering, the model before. Rendering does not read
  the counter, so nothing observable changes.
- CameraModel.Designate: characters past the end of the override read as NUL. The source's
  `GetChar` beyond the string's length is not defined.
- CameraModel.Designate is modelled as a function of the code and the string. The code it
  changes is the global `ccdModel` before `sxOpen`. Whether the `-m` option is present is up to
  the caller.
- `SXCCD_INTERLEAVE` = 0x40 and `SXCCD_COLOR` = 0x80 are assumed: two distinct bits inside
  0xC0. `sxtdi.h`, which defines them, is not part of this model.
- `SXCCD_MX5`, the initial value of `ccdModel` (line 52), is not part of this model either.
- FrameTransform.Present: the ramp is computed from `RampLevels` of the extremes, not from the
  raw extremes. When the extremes are equal, the source divides by zero (line 64) and its table
  is 0 below bucket `LUT_INDEX(min) - 1`, a NaN converted to a byte at that bucket, and 255 above.
  The model's table is the same step with 0 at that bucket (DisplayRamp.DegenerateRampIsStep).
- ScanSession.Scanner.Show: the same `RampLevels` difference as FrameTransform.Present.
- ScanSession.Scanner.DoAlign: the same `RampLevels` difference as FrameTransform.Present.
- ScanSession.Scanner.DoTDI: the same `RampLevels` difference as FrameTransform.Present.
- FrameTransform.RenderAccumulates follows from the definition of `Shade` without further proof.
  It records the align/scan difference only.

## Findings

| source | as written | input that shows it | evidently intended | confidence | as-written member | corrected member |
|---|---|---|---|---|---|---|
| wx/sxtdi/sxtdi.cpp:474 | `calcRamp(pixelMin, pixelMax, …)` divides by `white - black` at line 64 | any uniform window, such as an alignment frame saturated at 65535 in every pixel: the min and max are both 65535 | a ramp over a span of at least one level | not executed | DisplayRamp.UniformWindowDegenerate | DisplayRamp.RampLevels |
| wx/sxtdi/sxtdi.cpp:617-627 | `OnNew` frees `tdiFrame` without looking at `tdiState` | New during a scan, then a timer tick: `DoTDI` writes through a null `tdiFrame` | the buffer is dropped only when no scan is in progress | not executed | ScanSession.NewDuringScan | ScanSession.NewWhenIdleDuringScan |
