/** The geometry of `SpotlessCanvas`: where the image is drawn on the canvas
    (aspect fit, zoom, pan), how a canvas point maps back to image pixels,
    which image and overlay are shown, and the mouse handlers that move the
    split line and pan the view. */
module ProfessionalCanvas {
  import opened Common
  import opened Grids
  import opened ImageProcessingService
  import opened DustState

  // ---------------------------------------------------------------------
  // Aspect fit, zoom and pan

  /** `image_aspect > canvas_aspect`: the image is relatively wider than the
      area it is fitted into. */
  predicate ImageIsWider(iw: nat, ih: nat, cw: int, ch: int)
    requires ih > 0 && ch != 0
  {
    iw as real / ih as real > cw as real / ch as real
  }

  /** For a real (positive) area, comparing the aspect ratios as reals is
      comparing the cross products. */
  lemma AspectCompare(iw: nat, ih: nat, cw: int, ch: int)
    requires iw > 0 && ih > 0 && ch != 0
    ensures cw >= 0 && ch > 0 ==> (ImageIsWider(iw, ih, cw, ch) <==> iw * ch > cw * ih)
  {
    if cw >= 0 && ch > 0 {
      var ia, ca := iw as real / ih as real, cw as real / ch as real;
      var k := ih as real * ch as real;
      RealPosProduct(ih as real, ch as real);
      assert ia * k == (iw * ch) as real;
      assert ca * k == (cw * ih) as real;
      if ia > ca {
        RealPosProduct(ia - ca, k);
      }
      if iw * ch > cw * ih {
        if ia <= ca {
          RealMulMono(k, ia, ca);
          assert false;
        }
      }
    }
  }

  /** Fit to width: the height `int(cw / aspect)`, which for a non-negative
      width is the floor of `cw * ih / iw`. */
  function FittedHeight(iw: nat, ih: nat, cw: int): (h: int)
    requires iw > 0 && ih > 0
    ensures cw >= 0 ==> 0 <= h && h * iw <= cw * ih < (h + 1) * iw
  {
    var h := Trunc(cw as real / (iw as real / ih as real));
    if cw < 0 then h
    else
      assert cw as real / (iw as real / ih as real) == (cw * ih) as real / iw as real;
      TruncQuotient(cw * ih, iw, h);
      h
  }

  /** Fit to height: the width `int(ch * aspect)`, which for a non-negative
      height is the floor of `ch * iw / ih`. */
  function FittedWidth(iw: nat, ih: nat, ch: int): (w: int)
    requires iw > 0 && ih > 0
    ensures ch >= 0 ==> 0 <= w && w * ih <= ch * iw < (w + 1) * ih
  {
    var w := Trunc(ch as real * (iw as real / ih as real));
    if ch < 0 then w
    else
      assert ch as real * (iw as real / ih as real) == (ch * iw) as real / ih as real;
      TruncQuotient(ch * iw, ih, w);
      w
  }

  /** A side whose product with `k` is below `m`, itself at most `k * b`, is
      at most `b`. */
  lemma CrossBound(a: int, k: int, m: int, b: int)
    requires k > 0
    ensures a * k <= m <= k * b ==> a <= b
  {
    if a * k <= m <= k * b && a > b {
      MulStrict(k, b, a);
      assert false;
    }
  }

  /** The letterboxed size of an `iw` x `ih` image in a `cw` x `ch` area:
      a relatively wider image fills the width and its height is the
      truncated `cw / aspect`; otherwise it fills the height and its width is
      the truncated `ch * aspect`. For a real (positive) area the result fits
      in it and keeps the aspect ratio up to the truncated pixel. The area
      may be given with a negative side (a canvas smaller than its margins). */
  function FitSize(iw: nat, ih: nat, cw: int, ch: int): (r: (int, int))
    requires iw > 0 && ih > 0 && ch != 0
    ensures cw >= 0 && ch > 0 && iw * ch > cw * ih ==>
              r.0 == cw && 0 <= r.1 <= ch && r.1 * iw <= cw * ih < (r.1 + 1) * iw
    ensures cw >= 0 && ch > 0 && iw * ch <= cw * ih ==>
              r.1 == ch && 0 <= r.0 <= cw && r.0 * ih <= ch * iw < (r.0 + 1) * ih
  {
    AspectCompare(iw, ih, cw, ch);
    if ImageIsWider(iw, ih, cw, ch) then
      var h := FittedHeight(iw, ih, cw);
      CrossBound(h, iw, cw * ih, ch);
      (cw, h)
    else
      var w := FittedWidth(iw, ih, ch);
      CrossBound(w, ih, ch * iw, cw);
      (w, ch)
  }

  /** `prepare_image_for_display`'s rectangle: no image gives (0, 0, 0, 0);
      a zero canvas height makes the aspect division raise; otherwise the
      fitted size is scaled by the zoom and truncated, and the LANCZOS
      resize to that size raises unless both sides are at least 1 (a canvas
      reported 1 pixel wide, or the side-by-side view's `width // 2 - 1`
      of such a canvas, fits the image to nothing). A drawn rectangle is
      centred with floor division and shifted by the truncated pan offset. */
  function PrepareImageForDisplay(image: Option<Image>, cw: int, ch: nat, zoom: real, offset: Vec): (r: Result<Rect>)
    requires image.Some? ==> NonEmpty(image.value)
    ensures image.None? ==> r == Ok(Rect(0, 0, 0, 0))
    ensures image.Some? && ch == 0 ==> r.Err?
    ensures image.Some? && ch > 0 ==>
              var fit := FitSize(Width(image.value), Height(image.value), cw, ch);
              var zw, zh := Trunc(fit.0 as real * zoom), Trunc(fit.1 as real * zoom);
              && (r.Err? <==> zw < 1 || zh < 1)
              && (r.Ok? ==> r.value.w == zw && r.value.h == zh
                            && r.value.left == (cw - zw) / 2 + Trunc(offset.x)
                            && r.value.top == (ch - zh) / 2 + Trunc(offset.y))
  {
    if image.None? then Ok(Rect(0, 0, 0, 0))
    else if ch == 0 then Err("ZeroDivisionError: canvas height is zero")
    else
      var c := CentredRect(FitSize(Width(image.value), Height(image.value), cw, ch), cw, ch, zoom);
      if c.w < 1 || c.h < 1 then Err("ValueError: height and width must be > 0")
      else Ok(Panned(c, offset))
  }

  /** The zoomed size `int(fit * zoom)`, centred with `(canvas - size) // 2`. */
  function CentredRect(fit: (int, int), cw: int, ch: int, zoom: real): Rect {
    var zw, zh := Trunc(fit.0 as real * zoom), Trunc(fit.1 as real * zoom);
    Rect((cw - zw) / 2, (ch - zh) / 2, zw, zh)
  }

  /** The rectangle moved by `int(offset)`. */
  function Panned(c: Rect, offset: Vec): Rect {
    Rect(c.left + Trunc(offset.x), c.top + Trunc(offset.y), c.w, c.h)
  }

  /** For a fitted size within the canvas: zooming in never shrinks the
      drawn image, and at zoom 1 the image is drawn at its fitted size,
      inside the canvas and centred to within a pixel. */
  lemma DisplayRectProperties(fit: (int, int), cw: nat, ch: nat, zoom: real)
    requires 0 <= fit.0 <= cw && 0 <= fit.1 <= ch && zoom >= 1.0
    ensures var c := CentredRect(fit, cw, ch, zoom);
            && c.w >= fit.0 && c.h >= fit.1
            && (zoom == 1.0 ==>
                  && c.w == fit.0 && c.h == fit.1
                  && 0 <= c.left && c.left + c.w <= cw && 0 <= c.top && c.top + c.h <= ch
                  && -1 <= (cw - (c.left + c.w)) - c.left <= 1
                  && -1 <= (ch - (c.top + c.h)) - c.top <= 1)
  {
    ZoomedSize(fit.0, zoom);
    ZoomedSize(fit.1, zoom);
    if zoom == 1.0 {
      UnzoomedRect(fit, cw, ch);
    }
  }

  /** At zoom 1 the centred rectangle is the fitted size, inside the canvas
      and centred to within a pixel. */
  lemma UnzoomedRect(fit: (int, int), cw: nat, ch: nat)
    requires 0 <= fit.0 <= cw && 0 <= fit.1 <= ch
    ensures var c := CentredRect(fit, cw, ch, 1.0);
            && c.w == fit.0 && c.h == fit.1
            && 0 <= c.left && c.left + c.w <= cw && 0 <= c.top && c.top + c.h <= ch
            && -1 <= (cw - (c.left + c.w)) - c.left <= 1
            && -1 <= (ch - (c.top + c.h)) - c.top <= 1
  {
    ZoomedSize(fit.0, 1.0);
    ZoomedSize(fit.1, 1.0);
    assert CentredRect(fit, cw, ch, 1.0) == Rect((cw - fit.0) / 2, (ch - fit.1) / 2, fit.0, fit.1);
    CentredAxis(cw, fit.0);
    CentredAxis(ch, fit.1);
  }

  /** The displayed rectangle of an image: unzoomed and unpanned it lies in
      the canvas and fills its width or its height; zooming never shrinks
      it below that; panning shifts it by the truncated offset and leaves
      its size alone. */
  lemma DisplayedImageRect(image: Image, cw: nat, ch: nat, zoom: real, offset: Vec)
    requires NonEmpty(image) && ch > 0 && zoom >= 1.0
    requires FitSize(Width(image), Height(image), cw, ch).0 >= 1 && FitSize(Width(image), Height(image), cw, ch).1 >= 1
    ensures var r := PrepareImageForDisplay(Some(image), cw, ch, zoom, offset);
            var c := PrepareImageForDisplay(Some(image), cw, ch, zoom, Vec(0.0, 0.0));
            var u := PrepareImageForDisplay(Some(image), cw, ch, 1.0, Vec(0.0, 0.0));
            && r.Ok? && c.Ok? && u.Ok?
            && 0 <= u.value.left && u.value.left + u.value.w <= cw
            && 0 <= u.value.top && u.value.top + u.value.h <= ch
            && (u.value.w == cw || u.value.h == ch)
            && r.value.w >= u.value.w && r.value.h >= u.value.h
            && r.value.left == c.value.left + Trunc(offset.x) && r.value.top == c.value.top + Trunc(offset.y)
            && r.value.w == c.value.w && r.value.h == c.value.h
  {
    var fit := FitSize(Width(image), Height(image), cw, ch);
    DisplayRectProperties(fit, cw, ch, zoom);
    DisplayRectProperties(fit, cw, ch, 1.0);
  }

  /** `(c - n) // 2` places a span of `n <= c` inside `[0, c]` centred to
      within a pixel. */
  lemma CentredAxis(c: nat, n: int)
    requires 0 <= n <= c
    ensures 0 <= (c - n) / 2 && (c - n) / 2 + n <= c
    ensures -1 <= (c - ((c - n) / 2 + n)) - (c - n) / 2 <= 1
  {
  }

  /** `int(n * zoom)` is at least `n` for zoom >= 1, and `n` at zoom 1. */
  lemma ZoomedSize(n: int, zoom: real)
    requires n >= 0 && zoom >= 1.0
    ensures Trunc(n as real * zoom) >= n
    ensures zoom == 1.0 ==> Trunc(n as real * zoom) == n
  {
    RealMulMono(n as real, 1.0, zoom);
  }

  // ---------------------------------------------------------------------
  // Canvas point to image pixel

  /** One axis of `canvas_to_image_coordinates` inside the bounds:
      `((rel - 0.5) / zoom + 0.5 - offset / (bound * zoom)) * size`. */
  function ToImageAxis(c: real, b: int, bw: int, zoom: real, off: real, size: nat): real
    requires bw != 0 && zoom > 0.0
  {
    var rel := (c - b as real) / bw as real;
    ((rel - 0.5) / zoom + 0.5 - off / (bw as real * zoom)) * size as real
  }

  /** The forward transform: where image coordinate `p` is drawn. */
  function ToCanvasAxis(p: real, b: int, bw: int, zoom: real, off: real, size: nat): real
    requires bw > 0 && zoom > 0.0 && size > 0
  {
    var adj := p / size as real;
    b as real + ((adj - 0.5 + off / (bw as real * zoom)) * zoom + 0.5) * bw as real
  }

  lemma DivCancel(x: real, z: real)
    requires z != 0.0
    ensures (x * z) / z == x
  {
  }

  /** The two transforms are inverse to each other, in both orders. */
  lemma AxisRoundTrip(c: real, p: real, b: int, bw: int, zoom: real, off: real, size: nat)
    requires bw > 0 && zoom > 0.0 && size > 0
    ensures ToCanvasAxis(ToImageAxis(c, b, bw, zoom, off, size), b, bw, zoom, off, size) == c
    ensures ToImageAxis(ToCanvasAxis(p, b, bw, zoom, off, size), b, bw, zoom, off, size) == p
  {
    var w, s := bw as real, size as real;
    var rel := (c - b as real) / w;
    var k := off / (w * zoom);
    var adj := (rel - 0.5) / zoom + 0.5 - k;
    assert (adj * s) / s == adj;
    assert (adj - 0.5 + k) * zoom + 0.5 == rel;
    assert b as real + rel * w == c;
    var adj2 := p / s;
    var rel2 := (adj2 - 0.5 + k) * zoom + 0.5;
    var c2 := b as real + rel2 * w;
    assert (c2 - b as real) / w == rel2;
    var u := adj2 - 0.5 + k;
    assert rel2 - 0.5 == u * zoom;
    DivCancel(u, zoom);
    assert (rel2 - 0.5) / zoom + 0.5 - k == adj2;
    assert adj2 * s == p;
  }

  /** Without zoom and pan the map is plain proportion: the bounds' left edge
      is image column 0 and its right edge column `size`. */
  lemma AxisUnzoomed(c: real, b: int, bw: int, size: nat)
    requires bw > 0
    ensures ToImageAxis(c, b, bw, 1.0, 0.0, size) == (c - b as real) / bw as real * size as real
    ensures ToImageAxis(b as real, b, bw, 1.0, 0.0, size) == 0.0
    ensures ToImageAxis((b + bw) as real, b, bw, 1.0, 0.0, size) == size as real
  {
  }

  /** `canvas_to_image_coordinates`: None without an image or outside the
      closed bounds rectangle; a zero-size bounds rectangle makes the
      relative-position division raise for the points it still contains.
      (The bounds tuple itself is never falsy.) */
  function CanvasToImageCoordinates(imageSize: Option<(nat, nat)>, bounds: Rect, zoom: real, offset: Vec, cx: int, cy: int)
    : (r: Result<Option<Vec>>)
    requires zoom > 0.0
    ensures imageSize.None? ==> r == Ok(None)
    ensures imageSize.Some? && !InClosedRect(bounds, cx, cy) ==> r == Ok(None)
    ensures r.Err? <==> imageSize.Some? && InClosedRect(bounds, cx, cy) && (bounds.w == 0 || bounds.h == 0)
    ensures r.Ok? && r.value.Some? ==>
              r.value.value == Vec(ToImageAxis(cx as real, bounds.left, bounds.w, zoom, offset.x, imageSize.value.0),
                                   ToImageAxis(cy as real, bounds.top, bounds.h, zoom, offset.y, imageSize.value.1))
  {
    if imageSize.None? then Ok(None)
    else if !InClosedRect(bounds, cx, cy) then Ok(None)
    else if bounds.w == 0 || bounds.h == 0 then Err("ZeroDivisionError: empty image bounds")
    else
      Ok(Some(Vec(ToImageAxis(cx as real, bounds.left, bounds.w, zoom, offset.x, imageSize.value.0),
                  ToImageAxis(cy as real, bounds.top, bounds.h, zoom, offset.y, imageSize.value.1))))
  }

  predicate InClosedRect(b: Rect, x: int, y: int) {
    b.left <= x <= b.left + b.w && b.top <= y <= b.top + b.h
  }

  /** Every accepted canvas point is where the forward transform draws the
      image point it maps to, and with zoom 1 and no pan the bounds' corners
      map to the image's corners. */
  lemma CanvasToImageInverts(size: (nat, nat), bounds: Rect, zoom: real, offset: Vec, cx: int, cy: int)
    requires zoom > 0.0 && size.0 > 0 && size.1 > 0 && bounds.w > 0 && bounds.h > 0
    requires InClosedRect(bounds, cx, cy)
    ensures var r := CanvasToImageCoordinates(Some(size), bounds, zoom, offset, cx, cy);
            && r.Ok? && r.value.Some?
            && ToCanvasAxis(r.value.value.x, bounds.left, bounds.w, zoom, offset.x, size.0) == cx as real
            && ToCanvasAxis(r.value.value.y, bounds.top, bounds.h, zoom, offset.y, size.1) == cy as real
    ensures zoom == 1.0 && offset == Vec(0.0, 0.0) ==>
              && CanvasToImageCoordinates(Some(size), bounds, zoom, offset, bounds.left, bounds.top)
                   == Ok(Some(Vec(0.0, 0.0)))
              && CanvasToImageCoordinates(Some(size), bounds, zoom, offset, bounds.left + bounds.w, bounds.top + bounds.h)
                   == Ok(Some(Vec(size.0 as real, size.1 as real)))
  {
    AxisRoundTrip(cx as real, 0.0, bounds.left, bounds.w, zoom, offset.x, size.0);
    AxisRoundTrip(cy as real, 0.0, bounds.top, bounds.h, zoom, offset.y, size.1);
    AxisUnzoomed(bounds.left as real, bounds.left, bounds.w, size.0);
    AxisUnzoomed(bounds.top as real, bounds.top, bounds.h, size.1);
  }

  // ---------------------------------------------------------------------
  // Split line, overlay, displayed image

  function Abs(v: real): real { if v < 0.0 then -v else v }

  /** `is_near_split_line`: within `tolerance` pixels of the split line at
      `canvas_width * split_position`, an unmapped canvas counting as 800
      pixels wide. */
  predicate IsNearSplitLine(x: int, canvasWidth: int, split: real, tolerance: int)
    ensures IsNearSplitLine(x, canvasWidth, split, tolerance) <==>
              var line := OrDefault(canvasWidth, 800) as real * split;
              (x - tolerance) as real <= line <= (x + tolerance) as real
  {
    Abs(x as real - OrDefault(canvasWidth, 800) as real * split) <= tolerance as real
  }

  /** The pixel column under the split line always counts as near it. */
  lemma SplitColumnIsNear(canvasWidth: nat, split: real)
    requires 0.0 <= split <= 1.0
    ensures IsNearSplitLine(Trunc(OrDefault(canvasWidth, 800) as real * split), canvasWidth, split, 10)
  {
    RealNonNegProduct(OrDefault(canvasWidth, 800) as real, split);
  }

  /** `should_show_dust_overlay`. */
  predicate ShouldShowDustOverlay(st: DustRemovalState)
    reads st
    ensures ShouldShowDustOverlay(st) ==> st.dustMask.Some? && GetImageToDisplay(st) == st.selectedImage
    ensures st.view.hideDetections || st.view.showingOriginal || st.processedImage.Some? ==> !ShouldShowDustOverlay(st)
  {
    st.dustMask.Some? && !st.view.hideDetections && st.processedImage.None? && !st.view.showingOriginal
  }

  /** `get_image_to_display`: the original when asked for and present,
      else the processed image when there is one, else the original. */
  function GetImageToDisplay(st: DustRemovalState): (r: Option<Image>)
    reads st
    ensures r == st.selectedImage || r == st.processedImage
    ensures st.view.showingOriginal && st.selectedImage.Some? ==> r == st.selectedImage
    ensures !st.view.showingOriginal && st.processedImage.Some? ==> r == st.processedImage
    ensures st.processedImage.None? ==> r == st.selectedImage
  {
    if st.view.showingOriginal && st.selectedImage.Some? then st.selectedImage
    else if st.processedImage.Some? then st.processedImage
    else if st.view.hideDetections && st.dustMask.Some? then st.selectedImage
    else st.selectedImage
  }

  // ---------------------------------------------------------------------
  // Panning

  /** The pan step as `on_mouse_drag` writes it: the offset saved at mouse
      down plus the motion since the previous drag event only. */
  function DragStepAsWritten(panStart: Vec, last: Vec, p: Vec): Vec {
    Add(panStart, Sub(p, last))
  }

  /** The incremental pan step (as in `SpotlessFilm.on_canvas_drag`): the
      current offset plus the motion since the previous event. */
  function DragStep(offset: Vec, last: Vec, p: Vec): Vec {
    Add(offset, Sub(p, last))
  }

  /** The pointer position before the last of `moves`. */
  function LastPos(press: Vec, moves: seq<Vec>): Vec {
    if moves == [] then press else moves[|moves| - 1]
  }

  /** The drag offset after the drag events `moves`, following a mouse down
      at `press` with offset `start`, under each rule. */
  function PanAfterAsWritten(start: Vec, press: Vec, moves: seq<Vec>): Vec {
    if moves == [] then start
    else DragStepAsWritten(start, LastPos(press, moves[..|moves| - 1]), moves[|moves| - 1])
  }

  function PanAfter(start: Vec, press: Vec, moves: seq<Vec>): Vec {
    if moves == [] then start
    else DragStep(PanAfter(start, press, moves[..|moves| - 1]), LastPos(press, moves[..|moves| - 1]), moves[|moves| - 1])
  }

  /** The incremental rule moves the image by exactly the pointer's total
      displacement since the press, however the drag is split into events. */
  lemma {:induction false} PanFollowsPointer(start: Vec, press: Vec, moves: seq<Vec>)
    ensures PanAfter(start, press, moves) == Add(start, Sub(LastPos(press, moves), press))
  {
    if moves != [] {
      var init := moves[..|moves| - 1];
      PanFollowsPointer(start, press, init);
    }
  }

  /** As written, two drag events of `step` pixels each move the image by
      one step, not two: every event restarts from the offset saved at the
      press (with step 5: pointer from (0, 0) through (5, 0) to (10, 0)
      pans by (5, 0) instead of (10, 0)). */
  lemma PanAsWrittenLosesMotion(step: real)
    requires step != 0.0
    ensures var o, a, b := Vec(0.0, 0.0), Vec(step, 0.0), Vec(2.0 * step, 0.0);
            && PanAfterAsWritten(o, o, [a, b]) == a
            && PanAfter(o, o, [a, b]) == b
            && a != b
  {
    var o, a, b := Vec(0.0, 0.0), Vec(step, 0.0), Vec(2.0 * step, 0.0);
    var two := [a, b];
    assert two[..1] == [a];
    PanFollowsPointer(o, o, two);
  }

  // ---------------------------------------------------------------------
  // The canvas widget's interaction state

  class SpotlessCanvas {
    const state: DustRemovalState
    var imageBounds: Rect
    var isPanning: bool
    var lastMousePos: Option<Vec>
    var panStartOffset: Option<Vec>
    var splitPosition: real
    var splitDragging: bool

    predicate Valid()
      reads this, state
    {
      state.Valid() && 0.0 <= splitPosition <= 1.0
    }

    constructor (st: DustRemovalState)
      requires st.Valid()
      ensures Valid() && state == st
      ensures imageBounds == Rect(0, 0, 0, 0) && !isPanning && lastMousePos == None
      ensures panStartOffset == None && splitPosition == 0.5 && !splitDragging
    {
      state := st;
      imageBounds := Rect(0, 0, 0, 0);
      isPanning, lastMousePos, panStartOffset := false, None, None;
      splitPosition, splitDragging := 0.5, false;
    }

    /** Whether a press at `x` grabs the split handle. */
    predicate GrabsSplit(x: int, canvasWidth: int)
      reads this, state
    {
      state.view.processingMode == SplitSlider && IsNearSplitLine(x, canvasWidth, splitPosition, 10)
    }

    /** `on_mouse_down`: grab the split handle, or start a pan when space is
        held or the view is zoomed; the eraser and brush branches hand the
        point to the application's tool callbacks. */
    method OnMouseDown(x: int, y: int, canvasWidth: int)
      requires Valid()
      modifies this`lastMousePos, this`splitDragging, this`isPanning, this`panStartOffset
      ensures Valid()
      ensures lastMousePos == Some(Vec(x as real, y as real))
      ensures GrabsSplit(x, canvasWidth) ==>
                splitDragging && isPanning == old(isPanning) && panStartOffset == old(panStartOffset)
      ensures !GrabsSplit(x, canvasWidth) ==> splitDragging == old(splitDragging)
      ensures var pans := !GrabsSplit(x, canvasWidth) && state.view.toolMode !in {Eraser, Brush}
                          && (state.view.spaceKeyPressed || state.view.zoomScale > 1.0);
              && (pans ==> isPanning && panStartOffset == Some(state.view.dragOffset))
              && (!pans ==> isPanning == old(isPanning) && panStartOffset == old(panStartOffset))
    {
      lastMousePos := Some(Vec(x as real, y as real));
      if state.view.processingMode == SplitSlider && IsNearSplitLine(x, canvasWidth, splitPosition, 10) {
        splitDragging := true;
        return;
      }
      if state.view.toolMode == Eraser || state.view.toolMode == Brush {
        return;
      }
      if state.view.spaceKeyPressed || state.view.zoomScale > 1.0 {
        isPanning := true;
        panStartOffset := Some(state.view.dragOffset);
      }
    }

    /** `on_mouse_drag`: move the split line to the pointer, clamped to
        [0, 1], or pan with the rule as written: the offset saved at the
        press plus the motion since the previous event only (see
        `PanAsWrittenLosesMotion`). */
    method OnMouseDrag(x: int, y: int, canvasWidth: nat)
      requires Valid()
      modifies this`splitPosition, this`lastMousePos, state`view
      ensures Valid()
      ensures old(lastMousePos).None? ==>
                splitPosition == old(splitPosition) && lastMousePos == None && state.view == old(state.view)
      ensures old(lastMousePos).Some? ==> lastMousePos == Some(Vec(x as real, y as real))
      ensures old(lastMousePos).Some? && splitDragging ==>
                && splitPosition == Clamp(0.0, 1.0, x as real / OrDefault(canvasWidth, 800) as real)
                && state.view == old(state.view)
      ensures old(lastMousePos).Some? && !splitDragging ==> splitPosition == old(splitPosition)
      ensures old(lastMousePos).Some? && !splitDragging && isPanning && panStartOffset.Some? ==>
                state.view == old(state.view).(dragOffset :=
                  DragStepAsWritten(panStartOffset.value, old(lastMousePos).value, Vec(x as real, y as real)))
      ensures !(old(lastMousePos).Some? && !splitDragging && isPanning && panStartOffset.Some?) ==>
                state.view == old(state.view)
    {
      if lastMousePos.None? {
        return;
      }
      var p := Vec(x as real, y as real);
      if splitDragging {
        splitPosition := Clamp(0.0, 1.0, x as real / OrDefault(canvasWidth, 800) as real);
      } else if isPanning {
        if panStartOffset.Some? {
          state.view := state.view.(dragOffset := DragStepAsWritten(panStartOffset.value, lastMousePos.value, p));
        }
      }
      lastMousePos := Some(p);
    }

    /** `on_mouse_up`: release the split handle or the pan, or finish the
        brush stroke when a drawing tool is active. */
    method OnMouseUp()
      requires Valid()
      modifies this`splitDragging, this`isPanning, this`lastMousePos, this`panStartOffset
      modifies state`isDragging, state`lastBrushPoint, state`lastEraserPoint, state`dustMask
      ensures Valid()
      ensures !splitDragging && lastMousePos == None && panStartOffset == None
      ensures old(splitDragging) ==> isPanning == old(isPanning)
      ensures !old(splitDragging) ==> !isPanning
      ensures var ends := !old(splitDragging) && !old(isPanning) && state.view.toolMode in {Eraser, Brush};
              && (ends ==> !state.isDragging && state.dustMask == Synced(old(state.dustMask), state.lowResMask))
              && (!ends ==> state.isDragging == old(state.isDragging) && state.dustMask == old(state.dustMask))
    {
      if splitDragging {
        splitDragging := false;
      } else if isPanning {
        isPanning := false;
      } else if state.view.toolMode == Eraser || state.view.toolMode == Brush {
        state.EndBrushStroke();
      }
      lastMousePos := None;
      panStartOffset := None;
    }
  }
}
