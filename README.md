# Spotless-Film dust-mask editing engine, in Dafny

Spotless-Film removes dust from scanned film. A neural network turns the
photograph into a per-pixel dust probability. Thresholding that gives a
0/255 mask. The user corrects the mask with a circular brush and an eraser
at any zoom and pan, and an inpainted image is blended back through the
mask. This project models the parts of that engine that are arithmetic over
grids and state changes of the editing session, and proves what they
promise.

Modules, one per source file (plus two shared ones):

- `Common` (common.dfy): vectors, rectangles, `Option`/`Result`, Python's
  `int()` on floats (`Trunc`), the `max(lo, min(hi, v))` clamp, and small
  arithmetic facts.
- `Grids` (grids.dfy): grids `g[y][x]` and nearest-neighbour resizing with
  PIL's rule (sample the centre of the destination pixel) and OpenCV's
  rule (floor of `d * src / dst`).
- `ImageProcessingService` (image_processing.dfy): `create_binary_mask`,
  `dilate_mask` with the 5x5 elliptical kernel, and `blend_images`.
- `BrushTools` (brush_tools.dfy): `apply_circular_brush`, written as a
  method that writes into an `array2` buffer, and `interpolated_stroke`,
  written as a method with the source's loop. Each is proved equal to a
  specification function, with lemmas about that function.
- `DustState` (dust_removal_state.dfy): the `DustRemovalState` class. Its
  parts:
  - the bounded undo history and the one-snapshot-per-stroke flag;
  - the low-resolution working mask, with its creation, live upscale and
    sync. Its size is computed in integers (`LowResSide`), and
    `DustState.LowResDimsIsScaled` proves that equal to the source's
    formula `int(side * min(0.25, 1024 / max))` evaluated in exact
    arithmetic (see "Left out" for where IEEE doubles differ);
  - zoom clamping and `reset_processing`;
  - the `can_*` predicates (`CanDetectDust`, `CanRemoveDust`,
    `IsInDetectionMode`, `CanUndo`, defined exactly as the properties at
    src/dust_removal_state.py:129-148);
  - the session's own prediction-to-mask converter.

  `Valid()` keeps the history at 20 entries or fewer, every mask well
  formed and the zoom in [1, 5]. A mask too small for a low-res copy (a
  side that scales to 0) is accepted; making its working copy raises, as
  the resize to a zero side does, and the model returns that as `raised`.
- `ProfessionalCanvas` (professional_canvas.dfy): the canvas widget's
  display geometry. This covers the aspect fit, zoom and pan rectangle, the
  inverse zoom/pan transform, the split-line hit test, the overlay
  predicate and the choice of image. `SpotlessCanvas` is a class whose
  mouse handlers update the split position, the pan state and the
  session's drag offset.
- `ModernWindow` (spotless_film_modern.dfy): the modern window. Its parts:
  - mapping a canvas point into low-res mask pixels, and the brush radius;
  - the preview size, the split-view bounds and composite, the view-mode
    cycle, and cursor-anchored wheel zoom.

  `SpotlessFilmModern` is a class over the shared session. Its brush and
  eraser events are proved equal to `ToolStep`, a pure step function on a
  snapshot of the brushing state (`Brushing`).
- `BatchApp` (dust_removal_app.py → dust_removal_app.dfy): the batch tool.
  It covers reflect padding to the stride, patch accumulation in two
  `array2` buffers with the model as an opaque function, averaging by
  overlap count, thresholding, the inpaint mask, the output file name, the
  accepted extensions, and the file-choice state of `DustRemovalApp`.

Where the engine's design description and the code disagree, the model
follows the code:

- A threshold change replaces the mask wholesale. It does not re-apply the
  user's earlier edits. The window's threshold handler itself is not
  modelled (see "Left out").
- A brush event snapshots the history before it maps the point. An event
  outside the image therefore still pushes a snapshot and sets the stroke
  flag (`ModernWindow.UnmappedEventStillSnapshots`). The same holds for an
  event that changes no pixel.
- `blend_images` resizes a mask or inpainted image of the wrong size. It
  does not report the mismatch.

Behaviour worth knowing that the proofs make explicit:

- The batch tiler only places 1024-pixel patches that fit inside the padded
  image. An image with a side of 512 pixels or less therefore gets no patch
  and an all-zero mask (`BatchApp.SmallImageDetectsNothing`).
- Every pixel of a larger image is covered by one, two or four patches
  (`BatchApp.LargeImageIsCovered`).
- The drop handler's error text names only .jpg, .jpeg and .png, although
  .tiff and .bmp are accepted as well.
- `cycle_view_mode` is defined twice in the window class. Python keeps the
  later definition (src/spotless_film_modern.py:1698-1711), which is the
  one modelled.

## Model

| member | source | states |
|---|---|---|
| Common.Trunc | src/professional_canvas.py:401 | Python's `int()` on a float truncates toward zero: for x >= 0 the result is the floor, for x < 0 the ceiling |
| Common.Clamp | src/professional_canvas.py:585 | `max(lo, min(hi, v))` lies in [lo, hi], equals v inside the range and the nearer end outside it |
| Grids.SourceIndex | src/image_processing.py:259 | the source index a nearest resize reads for any destination index lies inside the source axis, under the PIL rule and the OpenCV rule |
| Grids.SourceIndexSameSize | src/image_processing.py:256-259 | resizing an axis to its own length reads every index in place |
| Grids.NearestResize | src/image_processing.py:259 | a nearest resize has exactly the requested width and height |
| Grids.ResizeCopiesSourcePixels | src/image_processing.py:259 | every pixel of a nearest resize is a copy of some source pixel, so no new values appear |
| Grids.ResizeSameSizeIsIdentity | src/image_processing.py:256-259 | a nearest resize to the grid's own size returns the grid, so the size check before resizing only saves work |
| Grids.PilUpDownIndex | src/dust_removal_state.py:299 | PIL nearest: mapping an index of a small axis up to a larger one and back yields the same index |
| Grids.UpThenDownIsIdentity | src/dust_removal_state.py:293-300 | a PIL nearest upscale followed by a nearest downscale to the original size returns the original grid |
| ImageProcessingService.ResizeMask | src/image_processing.py:259 | resizing an 8-bit mask gives an 8-bit mask of the requested size, well formed when the size is positive, and keeps a 0/255 mask 0/255 |
| ImageProcessingService.Binarize | src/image_processing.py:243 | thresholding keeps the grid's shape, produces only 0 and 255, and sets a pixel to 255 exactly when its prediction is strictly above the threshold |
| ImageProcessingService.SqueezedPlane | src/image_processing.py:227-233 | `squeeze()` followed by `Image.fromarray` keeps every plane except a single row at rank 3 or 4, which becomes the column holding the same values in order |
| ImageProcessingService.CreateBinaryMask | src/image_processing.py:227-259 | no mask exactly when the prediction has more than two leading singleton axes (rank above 4); the call raises exactly when `squeeze()` leaves a 0-d array (a 1 x 1 plane at rank 3 or 4); otherwise the squeezed plane (a single row at rank 3 or 4 read as a column) is thresholded and gives a 0/255 mask of exactly the requested original size |
| ImageProcessingService.CreateBinaryMaskPixel | src/image_processing.py:227-259 | each output pixel is 255 exactly when the prediction cell that the nearest resize reads for it is above the threshold (threshold first, then resize); for a single row at rank 3 or 4 that cell is chosen along the squeezed column, by the output row; at equal sizes the cell is the pixel itself |
| ImageProcessingService.ThresholdMonotone | src/image_processing.py:243 | raising the threshold never sets a pixel that the lower threshold left clear |
| ImageProcessingService.WindowMax | src/image_processing.py:277-280 | the running maximum over the centre and kernel taps is at least each of them and equal to one of them |
| ImageProcessingService.Dilate | src/image_processing.py:271-284 | dilation keeps the mask's size |
| ImageProcessingService.DilateProperties | src/image_processing.py:274-284 | dilation yields an 8-bit mask that dominates its input (the kernel holds its centre), keeps a 0/255 mask 0/255, and sets every pixel within the elliptical kernel of a 255 pixel to 255 |
| ImageProcessingService.BlendChannel | src/image_processing.py:304-313 | a blended channel is the original where the mask is 0, the inpainted value where it is 255, and between the two otherwise |
| ImageProcessingService.BetweenEnds | src/image_processing.py:310 | `o * (1 - a) + i * a` lies between o and i for a in [0, 1] |
| ImageProcessingService.BlendPixel | src/image_processing.py:310-313 | every blended pixel's channels stay in 0..255 |
| ImageProcessingService.MaskAtSize | src/image_processing.py:298-299 | the mask is brought to the original's size, and left as it is when it already has that size |
| ImageProcessingService.BlendImages | src/image_processing.py:287-316 | the blend has the original's size and byte-range pixels; when the inpainted image and the mask already have that size, it is the inpainted image where the mask is 255 and the original where the mask is 0 |
| ImageProcessingService.BlendAligned | src/image_processing.py:302-313 | on aligned inputs each output pixel is the per-pixel blend of the three inputs at that pixel |
| BrushTools.Stamp | src/image_processing.py:323-347 | one brush application: when the truncated centre is outside the mask the mask is unchanged; otherwise exactly the pixels of the disc get 0 (erase) or 255 (add) and all others keep their value |
| BrushTools.ApplyCircularBrush | src/image_processing.py:323-347 | the in-place buffer version computes exactly `Stamp` |
| BrushTools.StampIdempotent | src/image_processing.py:338-345 | stamping twice with the same centre, radius and mode equals stamping once |
| BrushTools.StampMonotone | src/image_processing.py:338-345 | a stamp preserves the pixelwise order between two masks |
| BrushTools.StampDirection | src/image_processing.py:342-345 | on an 8-bit mask a stamp keeps an 8-bit mask, keeps 0/255 masks 0/255, only raises pixels when adding and only lowers them when erasing |
| BrushTools.CountFrom | src/image_processing.py:365 | searching upwards from a count n whose reach is within d2 finds a count k >= n with `(k*sp)^2 <= d2 < ((k+1)*sp)^2` |
| BrushTools.StepCount | src/image_processing.py:365 | `int(distance / spacing)` for distance `sqrt(d2)` is the k with `(k*sp)^2 <= d2 < ((k+1)*sp)^2` |
| BrushTools.StepCountUnique | src/image_processing.py:365 | that bracket determines the step count uniquely, so it is the floor of distance over spacing |
| BrushTools.BracketOrder | src/image_processing.py:365 | a count whose reach stays within d2 is at most any count whose next reach passes it |
| BrushTools.Spacing | src/image_processing.py:364 | the stamp spacing is at least 1 and at least a quarter of the radius |
| BrushTools.StrokeSteps | src/image_processing.py:365 | a stroke takes at least one step |
| BrushTools.StampsUpTo | src/image_processing.py:368-377 | stamping the first k stroke points keeps the mask's size |
| BrushTools.StrokeSpec | src/image_processing.py:350-379 | the stroke's result keeps the mask's size |
| BrushTools.InterpolatedStroke | src/image_processing.py:350-379 | the loop over `range(steps + 1)` computes exactly `StrokeSpec` |
| BrushTools.StrokeEndpoints | src/image_processing.py:369-374 | the first interpolated point is the start point and the last is the end point |
| BrushTools.StrokeShape | src/image_processing.py:359-369 | points less than one pixel apart give a single stamp at the end point; otherwise the step count n is at least 1, `d2 < ((n+1)*sp)^2`, and `(n*sp)^2 <= d2` when n > 1 |
| BrushTools.StepsBracket | src/image_processing.py:364-365 | the stroke's step count n satisfies `d2 < ((n+1)*sp)^2`, and `(n*sp)^2 <= d2` whenever n > 1 |
| BrushTools.StampsUpToProperties | src/image_processing.py:368-377 | after stamping points 0..k-1: pixels some stamp reaches hold the tool's value, all others keep theirs, and the mask only grows when adding and only shrinks when erasing |
| BrushTools.StrokeProperties | src/image_processing.py:350-379 | a stroke keeps an 8-bit mask, only grows it when adding and only shrinks it when erasing, and paints the end point's disc; for points at least a pixel apart it also paints the start point's disc; a pixel outside every disc the stroke stamps keeps its value |
| DustState.PushBounded | src/dust_removal_state.py:214-219 | append then drop the oldest beyond the cap: the length is min(old + 1, cap), the list is the newest entries of old + [m], and m is last |
| DustState.LowResSideFacts | src/dust_removal_state.py:265-271 | one low-res side is at most 1024 and at most a quarter of the full side; it is `n div 4` when the long side is at most 4096, and 1024 on a long side of at least 4096 |
| DustState.WideQuotient | src/dust_removal_state.py:266-271 | beyond a long side of 4096, `n * 1024 div m` is in [0, 1024], at most a quarter of n, and exactly 1024 on the long side |
| DustState.LowResAxis | src/dust_removal_state.py:265-271 | in exact arithmetic, the side `int(n * min(0.25, 1024 / max))` equals the integer side `LowResSide` |
| DustState.InverseScale | src/dust_removal_state.py:266 | `1024 / max` is at least the 0.25 scale exactly when the long side is at most 4096, so `min` picks 0.25 there and `1024 / max` beyond |
| DustState.QuarterSide | src/dust_removal_state.py:268-270 | `int(n * 0.25)` is `n div 4` |
| DustState.WideSide | src/dust_removal_state.py:266-270 | `int(n * (1024 / m))` is the integer quotient `n * 1024 div m` |
| DustState.LowResDims | src/dust_removal_state.py:262-271 | the low-res size is at most 1024 per side and at most a quarter of the full size; it is (w/4, h/4) up to a long side of 4096, and its long side is 1024 beyond |
| DustState.LowResDimsIsScaled | src/dust_removal_state.py:262-271 | the integer low-res size is the size the source's formula gives in exact arithmetic, side by side |
| DustState.LowResOf | src/dust_removal_state.py:273 | the working copy is a well-formed mask of `LowResDims` and stays 0/255 when the full mask is |
| DustState.Synced | src/dust_removal_state.py:293-300 | the sync keeps the full mask's presence and size, keeps 0/255 masks 0/255, and does nothing without a low-res mask |
| DustState.SyncThenRecreate | src/dust_removal_state.py:256-300 | nothing drawn on the working copy is lost: deriving the working copy again from the synced full mask gives back the same working copy |
| DustState.ZoomedIn | src/dust_removal_state.py:171-174 | `min(z * 1.5, 5)` is at most 5, never below z in range, and exactly z * 1.5 when not clamped |
| DustState.ZoomedOut | src/dust_removal_state.py:176-178 | `max(z / 1.5, 1)` is at least 1, never above z, and exactly z / 1.5 when not clamped |
| DustState.ZoomInverse | src/dust_removal_state.py:171-181 | zooming out undoes an unclamped zoom-in, and zooming in undoes an unclamped zoom-out |
| DustState.CreateBinaryMaskFromPrediction | src/dust_removal_state.py:320-341 | the session's converter fails exactly on predictions of rank above 4, and otherwise gives a well-formed 0/255 mask of the requested size |
| DustState.BinaryMaskBuildersAgree | src/dust_removal_state.py:320-341 | the session's converter and the image service's `create_binary_mask` give the same mask on every prediction whose plane `squeeze()` leaves in shape: rank 2, rank above 4, or a plane of at least two rows |
| DustState.BinaryMaskBuildersDisagreeOnOneRow | src/dust_removal_state.py:327-332 | on the single-row prediction [0.9, 0.0] at rank 4 with threshold 0.5 and size 2 x 1, the session's converter gives [[255, 0]] while the service, having squeezed the row into a column, gives [[0, 0]] |
| DustState.BinaryMaskBuildersDisagreeOnOnePixel | src/dust_removal_state.py:327-332 | on a single-pixel prediction at rank 3 the session's converter gives the one-pixel mask while the service raises |
| DustState.DustRemovalState.constructor | src/dust_removal_state.py:64-110 | a new session has no images, masks or history, the default view, threshold 0.05, and is valid |
| DustState.DustRemovalState.CanDetectDust | src/dust_removal_state.py:129-134 | detection is offered only with an image and a loaded model, and never while detection or removal runs |
| DustState.DustRemovalState.CanRemoveDust | src/dust_removal_state.py:136-140 | removal is offered only with a mask, and never while detection or removal runs |
| DustState.DustRemovalState.IsInDetectionMode | src/dust_removal_state.py:142-144 | detection mode needs a mask and ends once a processed image exists |
| DustState.DustRemovalState.CanUndo | src/dust_removal_state.py:146-148 | undo is offered exactly when the history is non-empty |
| DustState.DustRemovalState.ResetZoom | src/dust_removal_state.py:165-169 | zoom 1 and offset (0, 0); the rest of the view is unchanged |
| DustState.DustRemovalState.ZoomIn | src/dust_removal_state.py:171-174 | the zoom becomes `ZoomedIn` of the old zoom and stays in [1, 5] |
| DustState.DustRemovalState.ZoomOut | src/dust_removal_state.py:176-181 | the zoom becomes `ZoomedOut` of the old zoom; reaching 1 recentres the image, otherwise the offset is kept |
| DustState.DustRemovalState.ClearMaskHistory | src/dust_removal_state.py:249-252 | the history is empty, the stroke flag is off, and nothing can be undone |
| DustState.DustRemovalState.ResetProcessing | src/dust_removal_state.py:152-163 | every result of the previous image is gone (processed image, masks, prediction, low-res mask, history), detections are shown, zoom is 1 with offset (0, 0), and nothing can be removed or undone |
| DustState.DustRemovalState.SaveMaskToHistory | src/dust_removal_state.py:208-219 | without a mask the history is unchanged; otherwise the mask is pushed with the 20-entry cap, so undo becomes possible and the newest entry is the mask |
| DustState.DustRemovalState.StartBrushStroke | src/dust_removal_state.py:221-225 | the stroke flag is set; the history gets one snapshot only when the flag was off and a mask exists |
| DustState.DustRemovalState.SyncLowResToFullRes | src/dust_removal_state.py:293-300 | the full mask becomes `Synced` of the old full mask and the working copy |
| DustState.DustRemovalState.EndBrushStroke | src/dust_removal_state.py:227-235 | the stroke flag and both tools' last points are cleared, and the full mask is synced from the working copy |
| DustState.DustRemovalState.CreateLowResMask | src/dust_removal_state.py:256-273 | the call raises exactly when the mask exists but a low-res side would be 0, and then leaves the working copy as it was; otherwise the working copy is absent without a mask and `LowResOf` the mask with one |
| DustState.DustRemovalState.GetLowResMask | src/dust_removal_state.py:276-280 | the returned working copy is the session's; an existing one is kept; a missing one is created from the mask, and the call raises exactly when that creation does |
| DustState.DustRemovalState.UpdateLowResMask | src/dust_removal_state.py:282-291 | the working copy is the new mask, and the full mask, if there is one, becomes `Synced` with it: the new mask's nearest upscale to the full mask's size |
| DustState.DustRemovalState.UndoLastMaskChange | src/dust_removal_state.py:237-247 | on empty history nothing changes; otherwise the newest snapshot becomes the mask, the history loses exactly that entry, and the working copy is rebuilt from it, unless that snapshot is too small for a low-res copy, in which case the call raises after the restore and the working copy is left as it was |
| ProfessionalCanvas.AspectCompare | src/professional_canvas.py:395-398 | on a canvas of non-negative width and positive height, "the image is wider" (the two aspect ratios compared as reals) holds exactly when `iw * ch > cw * ih` |
| ProfessionalCanvas.FittedHeight | src/professional_canvas.py:399-401 | fitting to the width gives `int(cw / aspect)`, the h with `h * iw <= cw * ih < (h + 1) * iw`: the floor of the proportional height |
| ProfessionalCanvas.FittedWidth | src/professional_canvas.py:402-405 | fitting to the height gives `int(ch * aspect)`, the w with `w * ih <= ch * iw < (w + 1) * ih`: the floor of the proportional width |
| ProfessionalCanvas.CrossBound | src/professional_canvas.py:398-405 | a floor below a cross product bounded by the canvas side stays within that side, so the fitted side fits |
| ProfessionalCanvas.FitSize | src/professional_canvas.py:394-405 | a wider image gets the canvas width and the floor of the proportional height; otherwise the canvas height and the floor of the proportional width; either way it fits in the canvas |
| ProfessionalCanvas.PrepareImageForDisplay | src/professional_canvas.py:387-420 | no image gives (0, 0, 0, 0); a zero canvas height is the division error; otherwise the call raises exactly when a side of `int(fit * zoom)` is below 1 (the resize's error), and the rectangle has that size, centred by `(canvas - size) // 2` and shifted by `int(offset)` |
| ProfessionalCanvas.DisplayedImageRect | src/professional_canvas.py:394-418 | for a fit of at least one pixel per side the image is drawn: unzoomed and unpanned it lies in the canvas and fills its width or height; zooming never shrinks it; panning shifts it by `int(offset)` and keeps its size |
| ProfessionalCanvas.DisplayRectProperties | src/professional_canvas.py:408-415 | the zoomed size is at least the fitted size; at zoom 1 it is the fitted size, inside the canvas and centred to within a pixel |
| ProfessionalCanvas.CentredAxis | src/professional_canvas.py:414-415 | `(c - n) // 2` places a span of n <= c inside [0, c] centred to within a pixel |
| ProfessionalCanvas.ZoomedSize | src/professional_canvas.py:409-410 | `int(n * zoom)` is at least n for zoom >= 1, and n at zoom 1 |
| ProfessionalCanvas.AxisRoundTrip | src/professional_canvas.py:691-705 | the canvas-to-image axis map and the forward drawing map are inverse to each other, in both orders |
| ProfessionalCanvas.AxisUnzoomed | src/professional_canvas.py:691-705 | without zoom or pan the map is plain proportion: the bounds' edges go to 0 and to the image size |
| ProfessionalCanvas.CanvasToImageCoordinates | src/professional_canvas.py:678-707 | no image, or a point outside the closed bounds, gives no point; degenerate bounds inside are the division error; otherwise the point is the per-axis zoom/pan inverse |
| ProfessionalCanvas.CanvasToImageInverts | src/professional_canvas.py:678-707 | every accepted point is where the forward transform draws the result; with zoom 1 and no pan the bounds' corners map to (0, 0) and to the image size |
| ProfessionalCanvas.SplitColumnIsNear | src/professional_canvas.py:646-650 | the pixel column under the split line always counts as near it |
| ProfessionalCanvas.IsNearSplitLine | src/professional_canvas.py:646-650 | a point is near the split line exactly when the line's column `canvas_width * split` lies within `tolerance` of it on either side |
| ProfessionalCanvas.ShouldShowDustOverlay | src/professional_canvas.py:380-385 | the overlay needs a mask and is drawn only over the original photograph; hiding detections, showing the original or having a processed image switches it off |
| ProfessionalCanvas.GetImageToDisplay | src/professional_canvas.py:356-378 | the result is the original or the processed image: the original when it is asked for and present, the processed image when it is present and the original is not asked for, and the original when there is no processed image |
| ProfessionalCanvas.PanFollowsPointer | src/professional_canvas.py:589-594 | with the incremental pan rule the image moves by exactly the pointer's total motion since the press, however the motion is split into events |
| ProfessionalCanvas.PanAsWrittenLosesMotion | src/professional_canvas.py:589-594 | with the rule as written, two drag events of one step each pan by one step, not two |
| ProfessionalCanvas.SpotlessCanvas.constructor | src/professional_canvas.py:23-43 | a new canvas has empty bounds, no pan or drag, and the split line in the middle |
| ProfessionalCanvas.SpotlessCanvas.OnMouseDown | src/professional_canvas.py:553-572 | the press is remembered; near the split line in split view the handle is grabbed; otherwise, with no drawing tool and space held or zoom above 1, a pan starts from the current offset |
| ProfessionalCanvas.SpotlessCanvas.OnMouseDrag | src/professional_canvas.py:574-601 | with the split handle grabbed the split position becomes the clamped pointer fraction in [0, 1]; during a pan the offset becomes the offset saved at the press plus the pointer's motion since the previous event (the rule as written, see Findings); nothing happens before a press |
| ProfessionalCanvas.SpotlessCanvas.OnMouseUp | src/professional_canvas.py:603-615 | the handle and the press are released; the pan ends unless the handle was held; when neither the handle nor a pan was active, an active brush or eraser ends the stroke and syncs the mask, and otherwise the stroke and the mask are unchanged |
| ModernWindow.WithinLowRes | src/spotless_film_modern.py:2042-2047 | a low-res point is kept exactly when it lies in [0, w) x [0, h) |
| ModernWindow.ConvertToLowResCoordinates | src/spotless_film_modern.py:2010-2047 | no image, or a point outside the display bounds, gives no point; degenerate bounds inside are the division error; every point returned lies inside the low-res mask |
| ModernWindow.RelativeAxis | src/spotless_film_modern.py:2023-2033 | the relative position lies in [0, 1], and scaling it to image pixels and then to low-res pixels is scaling it to low-res pixels |
| ModernWindow.LowResPointIsRelative | src/spotless_film_modern.py:2017-2047 | inside non-degenerate bounds the low-res point is the relative position times the low-res size, rejected only on the far edges |
| ModernWindow.WithinBySides | src/spotless_film_modern.py:2042-2047 | the bounds check on a low-res point is the conjunction of its two per-axis checks |
| ModernWindow.BoundsThroughRelative | src/spotless_film_modern.py:2023-2047 | the mapped point is the relative position scaled to the low-res size, then bounds-checked |
| ModernWindow.ConvertThroughBounds | src/spotless_film_modern.py:2010-2047 | with an image and bounds present, the conversion succeeds and is the bounds-relative mapping |
| ModernWindow.BrushRadius | src/spotless_film_modern.py:1955-1956 | the radius is at least 1; a zero canvas side is the division error |
| ModernWindow.BrushRadiusIsQuotient | src/spotless_film_modern.py:1955-1956 | on a canvas with no zero side the radius exists and is `max(1, brush_size * min(low) div min(canvas))` |
| ModernWindow.PreviewSize | src/spotless_film_modern.py:1291-1299 | both sides lie in [1, 2048]; a small image keeps its size; otherwise the long side is 2048 and the short side is `max(1, short * 2048 div long)` |
| ModernWindow.PreviewShortSide | src/spotless_film_modern.py:1296-1299 | the truncated `short * (2048 / long)` is the integer quotient `short * 2048 div long` |
| ModernWindow.BuildPreviewImage | src/spotless_film_modern.py:1286-1303 | a preview exists exactly when the image does, has `PreviewSize`, and is the image itself when that is small enough |
| ModernWindow.SplitBounds | src/spotless_film_modern.py:967-988 | no image gives (0, 0, 0, 0); a canvas height of 40 is the division error; otherwise the rectangle is at least 1 x 1 and centred to within a pixel |
| ModernWindow.SplitBoundsInsideMargin | src/spotless_film_modern.py:973-988 | on a canvas larger than its margins and without zoom, the split image lies inside the 20-pixel margin |
| ModernWindow.SplitAfterClick | src/spotless_film_modern.py:667-674 | a split position in [0.05, 0.95] stays in that range; a press outside the split rectangle, or on a degenerate one, leaves it unchanged |
| ModernWindow.SplitLineUnderPointer | src/spotless_film_modern.py:671-673 | a press inside the split rectangle away from the clamped edges puts the dividing column exactly under the pointer |
| ModernWindow.SplitComposite | src/spotless_film_modern.py:922-937 | columns left of `int(width * split)` come from the processed image and the rest from the original |
| ModernWindow.SplitCompositeExtremes | src/spotless_film_modern.py:924-937 | a split at or left of 0 shows only the original and one at or right of 1 only the processed image |
| ModernWindow.ModeIndex | src/spotless_film_modern.py:1700-1704 | the mode's index in the mode list, where that list holds the mode |
| ModernWindow.NextMode | src/spotless_film_modern.py:1698-1711 | the next mode differs from the current one and has the next index, wrapping around |
| ModernWindow.CycleVisitsAllModes | src/spotless_film_modern.py:1698-1711 | Single goes to SideBySide, SideBySide to SplitSlider and SplitSlider to Single; three presses visit every mode and come back |
| ModernWindow.WheelZoom | src/spotless_film_modern.py:1126-1143 | no zoom for a zero wheel amount or a change under 0.001; otherwise the zoom lies in [1, 5] and rises exactly when the wheel turns forward |
| ModernWindow.WheelKeepsCursorPoint | src/spotless_film_modern.py:1145-1163 | the new offset keeps the image point under the cursor in place |
| ModernWindow.WorkingCopy | src/spotless_film_modern.py:1944-1947 | the working copy an event draws on is the existing one when there is one; it is missing exactly when there is none and the full mask is too small for a low-res copy; and whenever it exists it is well formed |
| ModernWindow.ToolEdit | src/spotless_film_modern.py:1948-1967 | an edit's mask is well formed |
| ModernWindow.ToolEditProperties | src/spotless_film_modern.py:1948-1967 | an event edits the working copy exactly when its point maps into it and the canvas has no zero side; the edit keeps the copy's size, puts the tool's value under the pointer, and only adds (brush) or only removes (eraser) dust |
| ModernWindow.PointerPixelPainted | src/spotless_film_modern.py:1958-1967 | the stroke (with a last point) or stamp (without) keeps a well-formed mask, paints the pointer's pixel and moves the mask in the tool's direction |
| ModernWindow.RunToolEdit | src/spotless_film_modern.py:1949-1967 | the event computed with the loop-based brush and stroke methods equals `ToolEdit` |
| ModernWindow.StartedStroke | src/spotless_film_modern.py:1941-1947 | starting a stroke keeps the session invariant and the full mask; it leaves no working copy exactly when none existed and the full mask is too small for one |
| ModernWindow.EditInstalled | src/spotless_film_modern.py:1958-1971 | installing an edit keeps the session invariant, a working copy and a full mask of unchanged size |
| ModernWindow.StartedStrokeIs | src/spotless_film_modern.py:1941-1947 | a brushing state whose history follows the one-snapshot rule, with the stroke flag on and the working copy made if missing, is `StartedStroke` of the old one |
| ModernWindow.EditInstalledIs | src/spotless_film_modern.py:1958-1971 | a brushing state holding the edit as working copy, its upscale as full mask and its point as the tool's last point is `EditInstalled` of the old one |
| ModernWindow.ToolStep | src/spotless_film_modern.py:1936-1971 | without a mask nothing changes; otherwise the stroke is on, the full mask keeps its size and the session invariant, and a working copy exists exactly when one already did or the full mask is large enough to make one |
| ModernWindow.StrokeSnapshotsOnce | src/spotless_film_modern.py:1941-1942 | the first event of a stroke adds at most one snapshot, and a second event leaves the history as the first left it |
| ModernWindow.UnmappedEventStillSnapshots | src/spotless_film_modern.py:1941-1952 | an event whose point misses the working copy, or whose working copy cannot be made, still snapshots the history, sets the stroke flag and keeps the working copy it got, and changes nothing else |
| ModernWindow.ToolStepPaintsPointer | src/spotless_film_modern.py:1958-1971 | an event that edits installs the edit in the working copy, which holds the tool's value under the pointer, and remembers the point as that tool's last point |
| ModernWindow.SpotlessFilmModern.constructor | src/spotless_film_modern.py:43-62 | a new window has no preview, bounds or split photo, the split in the middle, and no pan |
| ModernWindow.SpotlessFilmModern.BeginToolEvent | src/spotless_film_modern.py:1941-1947 | the new brushing state is `StartedStroke` of the old one (one snapshot per stroke, the working copy made if missing), and the returned mask is the working copy, or None when making it raised |
| ModernWindow.SpotlessFilmModern.FinishToolEvent | src/spotless_film_modern.py:1969-1971 | the new brushing state is `EditInstalled` of the old one: an edit becomes the working copy, its upscale the full mask and its point that tool's last point; no edit changes nothing |
| ModernWindow.SpotlessFilmModern.ApplyToolAtPoint | src/spotless_film_modern.py:1936-2008 | a brush or eraser event changes the brushing state exactly as `ToolStep` does |
| ModernWindow.SpotlessFilmModern.OnCanvasClick | src/spotless_film_modern.py:649-674 | an active eraser or brush with a mask applies the tool; else holding space starts a pan at the pointer; else in split view with a composite the split moves by `SplitAfterClick` of the split rectangle |
| ModernWindow.SpotlessFilmModern.OnCanvasDrag | src/spotless_film_modern.py:676-714 | an active eraser or brush with a mask applies the tool; else a pan in progress moves the offset by the pointer's motion since the last event; else the split moves as on a click |
| ModernWindow.SpotlessFilmModern.OnMouseWheel | src/spotless_film_modern.py:1100-1172 | the zoom becomes `WheelZoom` of the old zoom when there is one; without GL the offset also moves to keep the cursor's point in place |
| ModernWindow.SpotlessFilmModern.CycleViewMode | src/spotless_film_modern.py:1698-1711 | the processing mode becomes the next one and the rest of the view is unchanged |
| ModernWindow.SpotlessFilmModern.OnCanvasRelease | src/spotless_film_modern.py:1186-1192 | the pan stops; with a brush or eraser the stroke ends and the mask is synced; with any other tool the session is unchanged |
| BatchApp.PadToStride | dust_removal_app.py:438-441 | the padded length is a multiple of 512; the pad is less than 512 and zero exactly for multiples; the padded length in strides is the length in strides rounded up |
| BatchApp.ReflectIndex | dust_removal_app.py:440 | reflect padding reads an index inside the image, and reads identical positions for indices inside it |
| BatchApp.ReflectMirrorsEnd | dust_removal_app.py:440 | past the end the padding mirrors the image about its last pixel, without repeating that pixel |
| BatchApp.Padded | dust_removal_app.py:440-441 | the padded image is an 8-bit grid of the padded size |
| BatchApp.Crop | dust_removal_app.py:468 | the crop has exactly the requested size and copies the top-left cells |
| BatchApp.CropUndoesPadding | dust_removal_app.py:440-468 | cropping the padded image back to H x W gives the image |
| BatchApp.NumOrigins | dust_removal_app.py:452-453 | origin j is used exactly when the patch at `j * 512` fits in the padded axis |
| BatchApp.AxisCoverClosedForm | dust_removal_app.py:452-460 | the number of patch origins covering an index has a closed form in the index's stride |
| BatchApp.AxisCoverOneOrTwo | dust_removal_app.py:452-460 | on an axis with a patch, each index is covered once or twice, and once exactly in the first and last stride |
| BatchApp.ShortAxisUncovered | dust_removal_app.py:452-453 | an axis shorter than a patch has no origin and covers nothing |
| BatchApp.PatchInput | dust_removal_app.py:454-455 | each patch fed to the model is 1024 x 1024 |
| BatchApp.Averaged | dust_removal_app.py:467-468 | the averaged map has the image's size |
| BatchApp.ThresholdMask | dust_removal_app.py:471-472 | the binary map keeps the shape and is 1 exactly where the average is above the threshold, 0 elsewhere |
| BatchApp.AddPatch | dust_removal_app.py:459-460 | adding a patch adds its output to exactly the cells of the patch window and leaves every other cell unchanged |
| BatchApp.AddTile | dust_removal_app.py:452-460 | one loop step adds patch (jy, jx)'s contribution to every prediction cell and its coverage to every count cell |
| BatchApp.Accumulate | dust_removal_app.py:443-460 | the nested loops leave in each cell the sum of the outputs of all patches covering it, and the number of those patches |
| BatchApp.DetectDust | dust_removal_app.py:433-474 | the final map is the averaged, cropped prediction of the padded image, and the binary map is its threshold |
| BatchApp.RowCountIsCoverage | dust_removal_app.py:452-460 | one row of origins counts each cell as often as the origins covering it along x |
| BatchApp.CountIsCoverage | dust_removal_app.py:452-460 | the count map holds the product of the two axis coverages |
| BatchApp.CoveredCellsAreAveraged | dust_removal_app.py:452-468 | on an image of at least one patch, each cell is counted 1, 2 or 4 times and averaged by that count |
| BatchApp.RowSumBounded | dust_removal_app.py:459-460 | for probability outputs, a row's summed prediction lies between 0 and its count |
| BatchApp.GridSumBounded | dust_removal_app.py:459-460 | the summed prediction lies between 0 and the count |
| BatchApp.AverageIsProbability | dust_removal_app.py:467 | for probability outputs every averaged cell lies in [0, 1] |
| BatchApp.NarrowGridIsZero | dust_removal_app.py:452-460 | without any origin the sums are zero |
| BatchApp.SmallImageDetectsNothing | dust_removal_app.py:438-472 | an image with a side of 512 or less gets an all-zero average and an all-zero binary map for any threshold of at least 0 |
| BatchApp.LargeImageIsCovered | dust_removal_app.py:438-460 | on an image larger than 512 on both sides, every cell is covered by 1, 2 or 4 patches and its average is the summed prediction divided by that count |
| BatchApp.Scale255 | dust_removal_app.py:488 | multiplying a 0/1 map by 255 gives a 0/255 map that is 255 exactly where the map was 1 |
| BatchApp.InpaintMask | dust_removal_app.py:481-488 | the inpaint mask has the image's size and holds only 0 and 255 |
| BatchApp.ResizeKeepsZeroOne | dust_removal_app.py:483-484 | the nearest resize of a 0/1 map is a 0/1 map |
| BatchApp.InpaintMaskCoversDetections | dust_removal_app.py:481-488 | every detected pixel, and every pixel within the elliptical kernel of one, is 255 in the inpaint mask |
| BatchApp.LastIndexOf | dust_removal_app.py:512 | the last occurrence of a character, or -1 when there is none |
| BatchApp.LastIndexOfUnique | dust_removal_app.py:512 | any index holding the character with none after it is the last occurrence |
| BatchApp.NamePart | dust_removal_app.py:512 | the directory part followed by the name part is the path |
| BatchApp.NamePartHasNoSeparator | dust_removal_app.py:512 | the name part contains no `/` |
| BatchApp.SuffixStart | dust_removal_app.py:515 | the suffix starts inside the name |
| BatchApp.OutputNameLacks | dust_removal_app.py:515 | a character absent from the name is absent from the output name |
| BatchApp.OutputPathKeepsDirectory | dust_removal_app.py:512-516 | the output file is in the same directory, under the name `stem + "_dust_removal" + suffix` |
| BatchApp.OutputPath | dust_removal_app.py:512-516 | the output path starts with the input's directory part and is longer than the input by exactly the inserted `_dust_removal` |
| BatchApp.OutputNameKeepsSuffix | dust_removal_app.py:515 | a file with an extension keeps it, and its stem gains `_dust_removal` |
| BatchApp.StemSuffixRoundTrip | dust_removal_app.py:515 | stem followed by suffix is the name |
| BatchApp.Lower | dust_removal_app.py:293 | lower-casing keeps the length and lower-cases each character |
| BatchApp.AcceptsIgnoresCase | dust_removal_app.py:293-303 | whether an image or weights file is accepted does not depend on letter case |
| BatchApp.AcceptsImage | dust_removal_app.py:293 | an accepted image name is at least as long as the shortest image extension |
| BatchApp.AcceptsWeights | dust_removal_app.py:303 | an accepted weights name is at least as long as `.pth` |
| BatchApp.NameEndsWith | dust_removal_app.py:293 | an accepted path's file name ends in the accepted extension |
| BatchApp.SuffixIsExtension | dust_removal_app.py:293-515 | for a name that ends in an accepted extension, the suffix is exactly that extension |
| BatchApp.AcceptedImageKeepsExtension | dust_removal_app.py:293-516 | an accepted image's suffix is its image extension, and the output file has the same suffix |
| BatchApp.AcceptedPathsAreSet | dust_removal_app.py:293-304 | every accepted image or weights path counts as set |
| BatchApp.DustRemovalApp.constructor | dust_removal_app.py:161-237 | no paths, the process button disabled, and the threshold at the default 0.005 |
| BatchApp.DustRemovalApp.UpdateProcessButton | dust_removal_app.py:369-374 | the button is enabled exactly when both paths are set |
| BatchApp.DustRemovalApp.SetImagePath | dust_removal_app.py:326-333 | the image path is set and the button state is updated |
| BatchApp.DustRemovalApp.SetWeightsPath | dust_removal_app.py:335-352 | the weights path is kept when the model loads; a load failure clears it and reports "Failed to load model: " with the error |
| BatchApp.DustRemovalApp.OnImageDrop | dust_removal_app.py:288-296 | an accepted first file becomes the image path; a rejected one leaves it and reports the error text; no files do nothing |
| BatchApp.DustRemovalApp.OnWeightsDrop | dust_removal_app.py:298-306 | an accepted first file goes through `set_weights_path`; a rejected one leaves the path and reports the error text; no files do nothing |
| BatchApp.DustRemovalApp.BrowseImage | dust_removal_app.py:308-315 | a chosen file becomes the image path; a cancelled dialog changes nothing |
| BatchApp.DustRemovalApp.BrowseWeights | dust_removal_app.py:317-324 | a chosen file goes through `set_weights_path`: it is kept when the model loads, and otherwise cleared with the error "Failed to load model: " followed by the load's message; a cancelled dialog changes nothing and reports no error |
| BatchApp.DustRemovalApp.CanProcess | dust_removal_app.py:380-383 | processing may start exactly when both paths are set, which is exactly when the button is enabled |

## Left out

- Neural networks: the UNet, `load_model` and `predict_dust_mask` are
  outside the model. A prediction enters as a grid of reals, and the batch
  model is an opaque function from a patch to a patch.
- Inpainting backends: LaMa and `cv2.inpaint` are foreign library calls.
  `blend_images` takes the inpainted image as input, and the LANCZOS resize
  of a wrongly sized inpainted image as a function parameter.
- Resampling other than nearest: LANCZOS and BILINEAR resizes (display
  images, previews, split caches) are parameters or are left out. Only
  their output size is modelled.
- The elliptical kernel is stated as the 5x5 disc predicate `InKernel`, as
  OpenCV builds it for size 5. The model does not derive it from OpenCV.
  The kernel size is fixed at 5, as in the code.
- Floating point: all geometry and blending use exact reals (with `Trunc`
  for `int()`). float32 rounding and IEEE effects are not modelled.
- `DustState.LowResDims`, `DustState.LowResAxis`, `DustState.LowResDimsIsScaled`
  and `ModernWindow.PreviewSize` follow the exact-arithmetic value of the
  source's `int(side * scale)`. In IEEE doubles a product such as
  `4237 * (1024 / 4237)` falls just below the integer 1024. So for some
  sides above 4096 the source's low-res side is one pixel shorter than
  the model's (1023 instead of 1024), and for some images above 2048 the
  preview's second side is (2047 instead of 2048 for a square image).
- The window's threshold handler `update_dust_mask_with_threshold_realtime`
  (src/spotless_film_modern.py:1911-1930) is not modelled. It rebuilds the
  mask with `create_binary_mask` (modelled) and recreates the working copy
  (modelled); it keeps no base mask and re-applies no edits.
- Threads and observers: `ProcessingTask`, the detect and remove worker
  threads, `notify_observers`/`after_idle` and the progress callbacks are
  left out; their point is asynchrony.
- File and process I/O: dialogs, `Image.open`/`save` and the executable
  builder are left out. A dialog's answer and a model load's failure enter
  as parameters.
- Rendering: Tk canvas items, labels, cursors, the OpenGL view, overlay
  tinting and the side-by-side view are left out.
  - The window's `display_single_view` is the code that sets
    `image_item_bounds`. It is not modelled, so the bounds are a plain
    field.
  - The photo created by `display_split_view` is the boolean
    `hasSplitPhoto`.
- The drawing-size guard `canvas_width <= 1` in `display_image` is left
  out along with rendering.
- Window-level `zoom_in`/`zoom_out`/`reset_zoom` (src/spotless_film_modern.py:1067-1099)
  forward to the session's methods. Only the session's methods are
  modelled.
- `ProfessionalCanvas.SpotlessCanvas.OnMouseDown` and
  `ProfessionalCanvas.SpotlessCanvas.OnMouseDrag` do not apply the eraser or
  the brush. In that case the source calls `apply_eraser_at_point` or
  `apply_brush_at_point` (src/professional_canvas.py:652-676). These map
  the point and hand it to the window's tool callback, which is modelled as
  `ModernWindow.SpotlessFilmModern.ApplyToolAtPoint`. The canvas handlers
  state only the split and pan effects, and that a press with a drawing
  tool starts no pan.
- The session's own `dilate_mask` (src/dust_removal_state.py:306-318)
  computes the same thing as `ImageProcessingService.Dilate` and is not
  modelled twice.
- `set_tool_mode`, `toggle_overlay`, `set_processing_mode` and `show_error`
  are one-field assignments; they appear only as the fields they set.
- Exceptions that Tk's callback wrapper swallows (a zero canvas side in
  the brush radius, zero bounds in a conversion) are modelled as `Err`
  results. In those cases the event makes no edit (`ToolEdit` is
  `None`), but the stroke is still started: the snapshot is taken, the
  stroke flag is set and a missing working copy is made
  (`ModernWindow.UnmappedEventStillSnapshots`).
- The prediction type `ImageProcessingService.Prediction` is a 2-D plane
  behind zero or more singleton leading axes. It cannot express a
  tensor of rank 0 or 1, for which `create_binary_mask` returns None
  (src/image_processing.py:235-237). Nor can it express a leading axis
  longer than 1. The network always returns a rank-4 tensor with
  singleton leading axes.
- Path handling: `pathlib` is modelled for `/`-separated paths. Backslash
  separators and path normalisation are not modelled.
- Lower-casing is modelled as ASCII only. Python's Unicode `str.lower` is
  not.
- `process_image` thread lifetime and button toggling while running are
  left out.
- The threshold slider's range [0.001, 0.05] is recorded as constants; its
  widget is not modelled.
- `ModernWindow.ToolEdit`: its own contract says only that the edit is
  well formed. What it does is stated in
  `ModernWindow.ToolEditProperties`.

## Findings

| source | as written | input that shows it | evidently intended | confidence | as-written member | corrected member |
|---|---|---|---|---|---|---|
| src/professional_canvas.py:589-594 | each drag event sets the offset to the offset saved at mouse down plus the motion since the previous drag event only | press at (0, 0), drag events at (5, 0) and (10, 0): the offset ends at (5, 0) | the image follows the pointer: offset (10, 0), as the window's own handler does it (src/spotless_film_modern.py:689-694) | high, not executed | ProfessionalCanvas.PanAsWrittenLosesMotion | ProfessionalCanvas.PanFollowsPointer |
