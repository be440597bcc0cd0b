/** The editing session of the dust-removal application (`DustRemovalState`):
    which images and masks exist, the bounded undo stack of mask snapshots,
    the low-resolution working copy of the mask that brush strokes draw on,
    and the view's zoom. */
module DustState {
  import opened Common
  import opened Grids
  import opened ImageProcessingService

  datatype ProcessingMode = Single | SideBySide | SplitSlider

  datatype ToolMode = NoTool | Eraser | Brush | Pan

  /** The `ViewState` dataclass. */
  datatype ViewState = ViewState(
    zoomScale: real,
    dragOffset: Vec,
    showingOriginal: bool,
    hideDetections: bool,
    processingMode: ProcessingMode,
    splitPosition: real,
    overlayOpacity: real,
    toolMode: ToolMode,
    brushSize: int,
    spaceKeyPressed: bool)

  const DefaultView: ViewState :=
    ViewState(1.0, Vec(0.0, 0.0), false, false, Single, 0.5, 0.6, NoTool, 15, false)

  /** `ProcessingState.threshold`'s default. */
  const DefaultThreshold: real := 0.05

  const MaxHistorySize: nat := 20
  const LowResScale: real := 0.25
  const MaxDrawingResolution: real := 1024.0
  const MinZoom: real := 1.0
  const MaxZoom: real := 5.0

  // ---------------------------------------------------------------------
  // Undo history

  /** `append` followed by `pop(0)` when the list grew past `cap`: the newest
      `min(|h| + 1, cap)` snapshots of `h + [m]`, ending with `m`. */
  function PushBounded(h: seq<Mask>, m: Mask, cap: nat): (r: seq<Mask>)
    requires 1 <= cap && |h| <= cap
    ensures |r| == MinI(|h| + 1, cap) && |r| <= cap
    ensures r == (h + [m])[|h| + 1 - |r|..]
    ensures r[|r| - 1] == m
  {
    var a := h + [m];
    if |a| > cap then a[1..] else a
  }

  // ---------------------------------------------------------------------
  // Low-resolution working mask

  /** One side of the low-resolution size as the source computes it,
      `int(size * scale)`. */
  function ScaledSide(n: nat, scale: real): int {
    Trunc(n as real * scale)
  }

  /** One side of the low-resolution size in integers, for a long side `m`:
      a quarter (rounded down) up to 4096, and `n * 1024 div m` beyond. */
  function LowResSide(n: nat, m: nat): nat
    requires m >= 1
  {
    if m <= 4096 then n / 4 else (n * 1024) / m
  }

  /** What one low-resolution side `k` of a full side `n` with long side `m`
      satisfies. */
  predicate AxisFacts(n: nat, m: nat, k: int) {
    && 0 <= k && k <= 1024 && 4 * k <= n
    && (m <= 4096 ==> k == n / 4)
    && (n == m && m >= 4096 ==> k == 1024)
  }

  /** A low-resolution side is at most 1024 and at most a quarter of the
      full side; it is exactly a quarter up to 4096, and 1024 on a long
      side of at least 4096. */
  lemma LowResSideFacts(n: nat, m: nat)
    requires 1 <= n <= m
    ensures AxisFacts(n, m, LowResSide(n, m))
  {
    if m > 4096 {
      WideQuotient(n, m);
    }
  }

  /** For a long side `m` beyond 4096, `n * 1024 div m` is in [0, 1024], at
      most a quarter of `n`, and 1024 on the long side itself. */
  lemma WideQuotient(n: nat, m: nat)
    requires 1 <= n <= m && m > 4096
    ensures AxisFacts(n, m, (n * 1024) / m)
  {
    var k := (n * 1024) / m;
    DivBracket(n * 1024, m);
    if k > 1024 {
      MulStrict(m, 1024, k);
      MulMono(m, n, m);
      assert false;
    }
    MulMono(k, 4096, m);
    if n == m {
      DivUnique(m * 1024, m, 1024);
    }
  }

  /** One axis of `int(size * min(0.25, 1024 / max_dimension))` is the
      integer side `LowResSide`. */
  lemma LowResAxis(n: nat, m: nat, scale: real)
    requires 1 <= n <= m
    requires scale == MinR(LowResScale, MaxDrawingResolution / m as real)
    ensures ScaledSide(n, scale) == LowResSide(n, m)
  {
    InverseScale(m);
    if m <= 4096 {
      QuarterSide(n, scale);
    } else {
      WideSide(n, m, scale);
    }
  }

  /** `1024 / m` is at least a quarter exactly when `m` is at most 4096. */
  lemma InverseScale(m: nat)
    requires m >= 1
    ensures (MaxDrawingResolution / m as real >= 0.25) <==> m <= 4096
  {
    var inv := MaxDrawingResolution / m as real;
    assert inv * m as real == 1024.0;
    if inv >= 0.25 {
      RealMulMono(m as real, 0.25, inv);
    } else {
      RealMulMono(m as real, inv, 0.25);
    }
  }

  /** `int(n * 0.25)` is `n div 4`. */
  lemma QuarterSide(n: nat, scale: real)
    requires scale == 0.25
    ensures ScaledSide(n, scale) == n / 4
  {
    var t := n as real * 0.25;
    var q := n / 4;
    DivBracket(n, 4);
    assert q as real <= t < q as real + 1.0;
  }

  /** `int(n * (1024 / m))` is the integer quotient `n * 1024 div m`. */
  lemma WideSide(n: nat, m: nat, scale: real)
    requires m > 0 && scale == MaxDrawingResolution / m as real
    ensures ScaledSide(n, scale) == (n * 1024) / m
  {
    TruncScaledQuotient(n, 1024, m);
  }

  /** `create_low_res_mask`'s size for a `w` x `h` mask: each side at most
      1024 and at most a quarter of the full side; exactly a quarter
      (rounded down) up to 4096 pixels, and a long side of exactly 1024
      above that. */
  function LowResDims(w: nat, h: nat): (r: (nat, nat))
    requires w >= 1 && h >= 1
    ensures r.0 <= 1024 && r.1 <= 1024
    ensures 4 * r.0 <= w && 4 * r.1 <= h
    ensures MaxI(w, h) <= 4096 ==> r == (w / 4, h / 4)
    ensures MaxI(w, h) >= 4096 ==> MaxI(r.0, r.1) == 1024
  {
    var m := MaxI(w, h);
    LowResSideFacts(w, m);
    LowResSideFacts(h, m);
    (LowResSide(w, m), LowResSide(h, m))
  }

  /** The integer size is the one the source's formula gives in exact arithmetic,
      `int(side * min(0.25, 1024 / max(w, h)))` per side. */
  lemma LowResDimsIsScaled(w: nat, h: nat)
    requires w >= 1 && h >= 1
    ensures var scale := MinR(LowResScale, MaxDrawingResolution / MaxI(w, h) as real);
            LowResDims(w, h) == (ScaledSide(w, scale), ScaledSide(h, scale))
  {
    var m := MaxI(w, h);
    var scale := MinR(LowResScale, MaxDrawingResolution / m as real);
    LowResAxis(w, m, scale);
    LowResAxis(h, m, scale);
  }

  /** A mask whose low-resolution copy has at least one pixel. On any other
      mask (a side under 4 pixels) `create_low_res_mask` asks PIL for a
      resize to a zero side, which raises. */
  predicate Drawable(m: Mask) {
    WellFormedMask(m) && LowResDims(Width(m), Height(m)).0 >= 1 && LowResDims(Width(m), Height(m)).1 >= 1
  }

  /** The mask part of the session invariant: a bounded history of
      well-formed snapshots, and a well-formed full mask and working copy. */
  predicate MasksValid(history: seq<Mask>, full: Option<Mask>, low: Option<Mask>) {
    && |history| <= MaxHistorySize
    && (forall i :: 0 <= i < |history| ==> WellFormedMask(history[i]))
    && (full.Some? ==> WellFormedMask(full.value))
    && (low.Some? ==> WellFormedMask(low.value))
  }

  /** The nearest-downscaled working copy of a full-resolution mask. */
  function LowResOf(m: Mask): (r: Mask)
    requires Drawable(m)
    ensures WellFormedMask(r)
    ensures IsGrid(r, LowResDims(Width(m), Height(m)).0, LowResDims(Width(m), Height(m)).1)
    ensures IsBinary(m) ==> IsBinary(r)
  {
    var d := LowResDims(Width(m), Height(m));
    ResizeMask(m, d.0, d.1)
  }

  /** `sync_low_res_to_full_res`'s effect on the mask: the low-res copy
      upscaled to the full mask's size, or no change if either is missing. */
  function Synced(full: Option<Mask>, low: Option<Mask>): (r: Option<Mask>)
    requires full.Some? ==> WellFormedMask(full.value)
    requires low.Some? ==> WellFormedMask(low.value)
    ensures r.Some? <==> full.Some?
    ensures r.Some? ==>
              (WellFormedMask(r.value) && Width(r.value) == Width(full.value) && Height(r.value) == Height(full.value))
    ensures r.Some? && low.Some? && IsBinary(low.value) ==> IsBinary(r.value)
    ensures low.None? ==> r == full
  {
    if full.None? || low.None? then full
    else Some(ResizeMask(low.value, Width(full.value), Height(full.value)))
  }

  /** Nothing drawn on the low-res copy is lost by syncing: re-deriving the
      low-res copy from the synced full mask (as undo does) gives the
      drawing back exactly. */
  lemma SyncThenRecreate(low: Mask, w: nat, h: nat)
    requires WellFormedMask(low) && w >= 1 && h >= 1
    requires (Width(low), Height(low)) == LowResDims(w, h)
    ensures Drawable(ResizeMask(low, w, h))
    ensures LowResOf(ResizeMask(low, w, h)) == low
  {
    var full := ResizeMask(low, w, h);
    assert Width(full) == w && Height(full) == h;
    UpThenDownIsIdentity(low, Width(low), Height(low), w, h);
  }

  // ---------------------------------------------------------------------
  // Zoom

  /** `min(zoom * 1.5, 5.0)`. */
  function ZoomedIn(z: real): (r: real)
    ensures r <= MaxZoom
    ensures 0.0 <= z <= MaxZoom ==> z <= r
    ensures r < MaxZoom ==> r == z * 1.5
  {
    MinR(z * 1.5, MaxZoom)
  }

  /** `max(zoom / 1.5, 1.0)`. */
  function ZoomedOut(z: real): (r: real)
    ensures r >= MinZoom
    ensures z >= MinZoom ==> r <= z
    ensures r > MinZoom ==> r * 1.5 == z
  {
    MaxR(z / 1.5, MinZoom)
  }

  /** Zooming out undoes a zoom-in that was not clamped, and vice versa. */
  lemma ZoomInverse(z: real)
    ensures MinZoom <= z && z * 1.5 <= MaxZoom ==> ZoomedOut(ZoomedIn(z)) == z
    ensures z <= MaxZoom && z / 1.5 >= MinZoom ==> ZoomedIn(ZoomedOut(z)) == z
  {
  }

  // ---------------------------------------------------------------------
  // Masks from predictions

  /** `create_binary_mask_from_prediction`: drop up to two leading axes,
      threshold, and always nearest-resize to `original_size`; a tensor of
      higher rank makes the conversion raise, which is reported as None. */
  function CreateBinaryMaskFromPrediction(pred: Prediction, t: real, ow: nat, oh: nat): (r: Option<Mask>)
    requires NonEmpty(pred.plane) && ow > 0 && oh > 0
    ensures r.None? <==> pred.leading > 2
    ensures r.Some? ==> WellFormedMask(r.value) && IsGrid(r.value, ow, oh) && IsBinary(r.value)
  {
    if pred.leading > 2 then None
    else
      var m := Binarize(pred.plane, t);
      assert IsMask(m, Width(pred.plane), Height(pred.plane));
      Some(ResizeMask(m, ow, oh))
  }

  /** The session's converter and `ImageProcessingService.create_binary_mask`
      build the same mask (only the latter skips the resize when the size
      already matches) on every prediction whose plane keeps its shape
      under the service's `squeeze()`: rank 2, rank above 4, or a plane of
      at least two rows. */
  lemma BinaryMaskBuildersAgree(pred: Prediction, t: real, ow: nat, oh: nat)
    requires NonEmpty(pred.plane) && ow > 0 && oh > 0
    ensures pred.leading == 0 || pred.leading > 2 || Height(pred.plane) >= 2 ==>
              CreateBinaryMask(pred, t, ow, oh) == Ok(CreateBinaryMaskFromPrediction(pred, t, ow, oh))
  {
    if pred.leading <= 2 && (pred.leading == 0 || Height(pred.plane) >= 2) {
      var pw, ph := Width(pred.plane), Height(pred.plane);
      var m := Binarize(pred.plane, t);
      if (pw, ph) == (ow, oh) {
        ResizeSameSizeIsIdentity(Pil, m, pw, ph);
      }
    }
  }

  /** On a single-row plane at rank 3 or 4 the two builders differ: the
      session's converter keeps the row, while the service squeezes it into
      a column before resizing it back to a row. */
  lemma BinaryMaskBuildersDisagreeOnOneRow()
    ensures CreateBinaryMaskFromPrediction(Prediction(2, [[0.9, 0.0]]), 0.5, 2, 1) == Some([[255, 0]])
    ensures CreateBinaryMask(Prediction(2, [[0.9, 0.0]]), 0.5, 2, 1) == Ok(Some([[0, 0]]))
  {
    SessionKeepsOneRow();
    ServiceTransposesOneRow();
  }

  lemma SessionKeepsOneRow()
    ensures CreateBinaryMaskFromPrediction(Prediction(2, [[0.9, 0.0]]), 0.5, 2, 1) == Some([[255, 0]])
  {
    var b := Binarize([[0.9, 0.0]], 0.5);
    assert b[0] == [255, 0] && b == [[255, 0]];
    ResizeSameSizeIsIdentity(Pil, b, 2, 1);
    assert ResizeMask(b, 2, 1) == b;
  }

  lemma ServiceTransposesOneRow()
    ensures CreateBinaryMask(Prediction(2, [[0.9, 0.0]]), 0.5, 2, 1) == Ok(Some([[0, 0]]))
  {
    var pred := Prediction(2, [[0.9, 0.0]]);
    var col := SqueezedPlane(pred);
    assert col == [[0.9], [0.0]];
    var c := Binarize(col, 0.5);
    assert |c| == 2 && |c[0]| == 1 && |c[1]| == 1 && c[1][0] == 0;
    var rm := NearestResize(Pil, c, 1, 2, 2, 1);
    assert SourceIndex(Pil, 0, 2, 1) == 1;
    assert SourceIndex(Pil, 0, 1, 2) == 0 && SourceIndex(Pil, 1, 1, 2) == 0;
    assert |rm| == 1 && |rm[0]| == 2 && rm[0][0] == 0 && rm[0][1] == 0;
    assert rm[0] == [0, 0];
    assert rm == [[0, 0]];
    assert CreateBinaryMask(pred, 0.5, 2, 1) == Ok(Some(rm));
  }

  /** On a single pixel at rank 3 or 4 the service raises where the
      session's converter builds the one-pixel mask. */
  lemma BinaryMaskBuildersDisagreeOnOnePixel()
    ensures CreateBinaryMaskFromPrediction(Prediction(1, [[0.9]]), 0.5, 1, 1) == Some([[255]])
    ensures CreateBinaryMask(Prediction(1, [[0.9]]), 0.5, 1, 1).Err?
  {
    var one := Binarize([[0.9]], 0.5);
    assert one[0] == [255] && one == [[255]];
    ResizeSameSizeIsIdentity(Pil, one, 1, 1);
    assert ResizeMask(one, 1, 1) == one;
  }

  // ---------------------------------------------------------------------
  // The session object

  class DustRemovalState {
    var selectedImage: Option<Image>
    var processedImage: Option<Image>
    var dustMask: Option<Mask>
    var originalDustMask: Option<Mask>
    var rawPrediction: Option<seq<seq<real>>>
    var lowResMask: Option<Mask>
    /** Whether `unet_model` is loaded. */
    var hasModel: bool
    var view: ViewState
    var isDetecting: bool
    var isRemoving: bool
    var threshold: real
    var maskHistory: seq<Mask>
    var isDragging: bool
    var lastBrushPoint: Option<Vec>
    var lastEraserPoint: Option<Vec>

    /** The history holds at most 20 snapshots, every mask is a well-formed
        8-bit mask, and the zoom lies in [1, 5]. */
    predicate Valid()
      reads this
    {
      && MasksValid(maskHistory, dustMask, lowResMask)
      && (originalDustMask.Some? ==> WellFormedMask(originalDustMask.value))
      && MinZoom <= view.zoomScale <= MaxZoom
    }

    constructor ()
      ensures Valid()
      ensures selectedImage == None && processedImage == None && dustMask == None
      ensures originalDustMask == None && rawPrediction == None && lowResMask == None
      ensures !hasModel && view == DefaultView && !isDetecting && !isRemoving
      ensures threshold == DefaultThreshold
      ensures maskHistory == [] && !isDragging && lastBrushPoint == None && lastEraserPoint == None
    {
      selectedImage, processedImage, dustMask := None, None, None;
      originalDustMask, rawPrediction, lowResMask := None, None, None;
      hasModel, view, isDetecting, isRemoving := false, DefaultView, false, false;
      threshold := DefaultThreshold;
      maskHistory, isDragging, lastBrushPoint, lastEraserPoint := [], false, None, None;
    }

    /** `can_detect_dust`: an image and a model, and no job running. */
    predicate CanDetectDust()
      reads this
      ensures CanDetectDust() ==> selectedImage.Some? && hasModel
      ensures isDetecting || isRemoving ==> !CanDetectDust()
    {
      selectedImage.Some? && hasModel && !isDetecting && !isRemoving
    }

    /** `can_remove_dust`: a mask, and no job running. */
    predicate CanRemoveDust()
      reads this
      ensures CanRemoveDust() ==> dustMask.Some?
      ensures isDetecting || isRemoving ==> !CanRemoveDust()
    {
      dustMask.Some? && !isDetecting && !isRemoving
    }

    /** `is_in_detection_mode`: a mask that has not been removed yet. */
    predicate IsInDetectionMode()
      reads this
      ensures IsInDetectionMode() ==> dustMask.Some?
      ensures processedImage.Some? ==> !IsInDetectionMode()
    {
      dustMask.Some? && processedImage.None?
    }

    /** `can_undo`: some snapshot to go back to. */
    predicate CanUndo()
      reads this
      ensures CanUndo() <==> maskHistory != []
    {
      |maskHistory| > 0
    }

    /** `reset_zoom`. */
    method ResetZoom()
      requires Valid()
      modifies this`view
      ensures Valid()
      ensures view == old(view).(zoomScale := 1.0, dragOffset := Vec(0.0, 0.0))
    {
      view := view.(zoomScale := 1.0, dragOffset := Vec(0.0, 0.0));
    }

    /** `zoom_in`. */
    method ZoomIn()
      requires Valid()
      modifies this`view
      ensures Valid()
      ensures view == old(view).(zoomScale := ZoomedIn(old(view.zoomScale)))
    {
      view := view.(zoomScale := ZoomedIn(view.zoomScale));
    }

    /** `zoom_out`: reaching the minimum zoom also recentres the image. */
    method ZoomOut()
      requires Valid()
      modifies this`view
      ensures Valid()
      ensures view.zoomScale == ZoomedOut(old(view.zoomScale))
      ensures view.dragOffset == if view.zoomScale == 1.0 then Vec(0.0, 0.0) else old(view.dragOffset)
      ensures view == old(view).(zoomScale := view.zoomScale, dragOffset := view.dragOffset)
    {
      view := view.(zoomScale := ZoomedOut(view.zoomScale));
      if view.zoomScale == 1.0 {
        view := view.(dragOffset := Vec(0.0, 0.0));
      }
    }

    /** `clear_mask_history`. */
    method ClearMaskHistory()
      requires Valid()
      modifies this`maskHistory, this`isDragging
      ensures Valid()
      ensures maskHistory == [] && !isDragging && !CanUndo()
    {
      maskHistory := [];
      isDragging := false;
    }

    /** `reset_processing`: forget every result of the previous image. */
    method ResetProcessing()
      requires Valid()
      modifies this`processedImage, this`dustMask, this`originalDustMask, this`rawPrediction
      modifies this`view, this`maskHistory, this`isDragging, this`lowResMask
      ensures Valid()
      ensures processedImage == None && dustMask == None && originalDustMask == None
      ensures rawPrediction == None && lowResMask == None
      ensures maskHistory == [] && !isDragging
      ensures view == old(view).(hideDetections := false, zoomScale := 1.0, dragOffset := Vec(0.0, 0.0))
      ensures !CanUndo() && !CanRemoveDust() && !IsInDetectionMode()
    {
      processedImage, dustMask, originalDustMask, rawPrediction := None, None, None, None;
      view := view.(hideDetections := false);
      ResetZoom();
      ClearMaskHistory();
      lowResMask := None;
    }

    /** `save_mask_to_history`: snapshot the mask, keeping the newest 20. */
    method SaveMaskToHistory()
      requires Valid()
      modifies this`maskHistory
      ensures Valid()
      ensures dustMask.None? ==> maskHistory == old(maskHistory)
      ensures dustMask.Some? ==> maskHistory == PushBounded(old(maskHistory), dustMask.value, MaxHistorySize)
      ensures dustMask.Some? ==> CanUndo() && maskHistory[|maskHistory| - 1] == dustMask.value
    {
      if dustMask.None? {
        return;
      }
      maskHistory := PushBounded(maskHistory, dustMask.value, MaxHistorySize);
    }

    /** `start_brush_stroke`: only the first call of a drag takes a
        snapshot, so a whole stroke is undone at once. */
    method StartBrushStroke()
      requires Valid()
      modifies this`maskHistory, this`isDragging
      ensures Valid()
      ensures isDragging
      ensures old(isDragging) ==> maskHistory == old(maskHistory)
      ensures !old(isDragging) && dustMask.Some? ==>
                maskHistory == PushBounded(old(maskHistory), dustMask.value, MaxHistorySize)
      ensures dustMask.None? ==> maskHistory == old(maskHistory)
    {
      if !isDragging {
        SaveMaskToHistory();
        isDragging := true;
      }
    }

    /** `sync_low_res_to_full_res`. */
    method SyncLowResToFullRes()
      requires Valid()
      modifies this`dustMask
      ensures Valid()
      ensures dustMask == Synced(old(dustMask), lowResMask)
    {
      if lowResMask.None? || dustMask.None? {
        return;
      }
      dustMask := Some(ResizeMask(lowResMask.value, Width(dustMask.value), Height(dustMask.value)));
    }

    /** `end_brush_stroke`: forget the stroke's last points and write the
        low-res drawing back into the full mask, keeping its size. */
    method EndBrushStroke()
      requires Valid()
      modifies this`isDragging, this`lastBrushPoint, this`lastEraserPoint, this`dustMask
      ensures Valid()
      ensures !isDragging && lastBrushPoint == None && lastEraserPoint == None
      ensures dustMask == Synced(old(dustMask), lowResMask)
    {
      isDragging := false;
      lastBrushPoint := None;
      lastEraserPoint := None;
      SyncLowResToFullRes();
    }

    /** `create_low_res_mask`: `raised` reports the ValueError of the
        resize on a mask too small for a low-res copy, which leaves the
        working copy as it was. */
    method CreateLowResMask() returns (raised: bool)
      requires Valid()
      modifies this`lowResMask
      ensures Valid()
      ensures raised <==> dustMask.Some? && !Drawable(dustMask.value)
      ensures raised ==> lowResMask == old(lowResMask)
      ensures !raised ==> lowResMask == if dustMask.None? then None else Some(LowResOf(dustMask.value))
    {
      raised := false;
      if dustMask.None? {
        lowResMask := None;
        return;
      }
      if !Drawable(dustMask.value) {
        raised := true;
        return;
      }
      lowResMask := Some(LowResOf(dustMask.value));
    }

    /** `get_low_res_mask`: create the working copy on first use; the
        creation's error propagates. */
    method GetLowResMask() returns (r: Option<Mask>, raised: bool)
      requires Valid()
      modifies this`lowResMask
      ensures Valid() && r == lowResMask
      ensures raised <==> old(lowResMask).None? && dustMask.Some? && !Drawable(dustMask.value)
      ensures old(lowResMask).Some? || raised ==> lowResMask == old(lowResMask)
      ensures old(lowResMask).None? && !raised ==>
                lowResMask == if dustMask.None? then None else Some(LowResOf(dustMask.value))
    {
      raised := false;
      if lowResMask.None? {
        raised := CreateLowResMask();
      }
      r := lowResMask;
    }

    /** `update_low_res_mask`: install the new working copy and show its
        upscale as the full mask straight away. */
    method UpdateLowResMask(newLowRes: Mask)
      requires Valid() && WellFormedMask(newLowRes)
      modifies this`lowResMask, this`dustMask
      ensures Valid()
      ensures lowResMask == Some(newLowRes)
      ensures dustMask == Synced(old(dustMask), Some(newLowRes))
    {
      lowResMask := Some(newLowRes);
      if dustMask.Some? {
        dustMask := Some(ResizeMask(newLowRes, Width(dustMask.value), Height(dustMask.value)));
      }
    }

    /** `undo_last_mask_change`: restore the newest snapshot and rebuild the
        working copy from it; with no snapshot nothing happens. When the
        snapshot is too small for a low-res copy the rebuild raises after
        the snapshot is restored, keeping the old working copy. */
    method UndoLastMaskChange() returns (raised: bool)
      requires Valid()
      modifies this`dustMask, this`maskHistory, this`lowResMask
      ensures Valid()
      ensures old(maskHistory) == [] ==>
                !raised && dustMask == old(dustMask) && maskHistory == [] && lowResMask == old(lowResMask)
      ensures old(maskHistory) != [] ==>
                && dustMask == Some(old(maskHistory)[|old(maskHistory)| - 1])
                && maskHistory == old(maskHistory)[..|old(maskHistory)| - 1]
                && (raised <==> !Drawable(dustMask.value))
                && lowResMask == if raised then old(lowResMask) else Some(LowResOf(dustMask.value))
    {
      raised := false;
      if maskHistory == [] {
        return;
      }
      dustMask := Some(maskHistory[|maskHistory| - 1]);
      maskHistory := maskHistory[..|maskHistory| - 1];
      raised := CreateLowResMask();
    }
  }
}
