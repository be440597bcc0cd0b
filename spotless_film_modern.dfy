/** The editing window of the modern interface (`SpotlessFilmModern`): how a
    canvas point reaches the low-resolution working mask, the brush radius
    on that mask, the preview size, the split view's rectangle and
    composite, the view-mode cycle, the cursor-anchored wheel zoom, and the
    mouse handlers that paint, pan and move the split line. */
module ModernWindow {
  import opened Common
  import opened Grids
  import opened ImageProcessingService
  import opened BrushTools
  import opened DustState
  import opened ProfessionalCanvas

  /** The width and height of an image, if there is one. */
  function ImageSize(img: Option<Image>): Option<(nat, nat)> {
    if img.None? then None else Some((Width(img.value), Height(img.value)))
  }

  /** A loaded image is at least one pixel wide and high. */
  predicate HasPixels(img: Option<Image>) {
    img.Some? ==> Width(img.value) > 0 && Height(img.value) > 0
  }

  // ---------------------------------------------------------------------
  // Canvas point to low-res mask point

  /** The point `(x, y)` if it lies in `[0, low.0) x [0, low.1)`. */
  function WithinLowRes(x: real, y: real, low: (nat, nat)): (r: Option<Vec>)
    ensures r.Some? <==> 0.0 <= x < low.0 as real && 0.0 <= y < low.1 as real
    ensures r.Some? ==> r.value == Vec(x, y)
  {
    if x < 0.0 || x >= low.0 as real || y < 0.0 || y >= low.1 as real then None
    else Some(Vec(x, y))
  }

  /** The canvas point lies in the closed rectangle `b`. */
  predicate InBounds(b: Rect, p: Vec) {
    b.left as real <= p.x <= (b.left + b.w) as real && b.top as real <= p.y <= (b.top + b.h) as real
  }

  /** `convert_to_low_res_coordinates`. Without an image there is no point.
      With display bounds, a point outside the closed bounds has none, a
      point on zero-size bounds makes the relative-position division raise,
      and otherwise the relative position is scaled to the original image
      and from there to the low-res mask. Without bounds the point is taken
      to be in image pixels. Either way a point that lands outside the
      low-res mask is dropped. */
  function ConvertToLowResCoordinates(imageSize: Option<(nat, nat)>, bounds: Option<Rect>, p: Vec, low: (nat, nat))
    : (r: Result<Option<Vec>>)
    requires imageSize.Some? ==> imageSize.value.0 > 0 && imageSize.value.1 > 0
    ensures imageSize.None? ==> r == Ok(None)
    ensures imageSize.Some? && bounds.Some? && !InBounds(bounds.value, p) ==> r == Ok(None)
    ensures r.Err? <==> imageSize.Some? && bounds.Some? && InBounds(bounds.value, p)
                        && (bounds.value.w == 0 || bounds.value.h == 0)
    ensures r.Ok? && r.value.Some? ==>
              0.0 <= r.value.value.x < low.0 as real && 0.0 <= r.value.value.y < low.1 as real
  {
    if imageSize.None? then Ok(None)
    else
      var ow, oh := imageSize.value.0 as real, imageSize.value.1 as real;
      if bounds.Some? then
        var b := bounds.value;
        if !InBounds(b, p) then Ok(None)
        else if b.w == 0 || b.h == 0 then Err("ZeroDivisionError: display bounds have zero size")
        else Ok(BoundsToLowRes(imageSize.value, b, p, low))
      else
        Ok(WithinLowRes(p.x * (low.0 as real / ow), p.y * (low.1 as real / oh), low))
  }

  /** The mapping through display bounds `b`: the point's relative position
      in `b`, scaled to the original image's pixels and from there to the
      low-res mask's. */
  function BoundsToLowRes(size: (nat, nat), b: Rect, p: Vec, low: (nat, nat)): Option<Vec>
    requires size.0 > 0 && size.1 > 0 && b.w != 0 && b.h != 0
  {
    var relX := (p.x - b.left as real) / b.w as real;
    var relY := (p.y - b.top as real) / b.h as real;
    WithinLowRes(ThroughOriginal(relX, size.0 as real, low.0 as real),
                 ThroughOriginal(relY, size.1 as real, low.1 as real), low)
  }

  /** A relative position scaled to `orig` image pixels and then by the
      low-res factor `low / orig`. */
  function ThroughOriginal(rel: real, orig: real, low: real): real
    requires orig != 0.0
  {
    rel * orig * (low / orig)
  }

  /** One axis of the bounded mapping: for a coordinate `x` in the span
      `[lo, lo + len]` with `len > 0`, the relative position
      `rel = (x - lo) / len` lies in [0, 1]; scaling it up to `orig` pixels
      and down to `n` low-res pixels gives `rel * n`, which stays below `n`
      exactly when `x` is short of the far end. */
  lemma RelativeAxis(x: real, lo: int, len: int, orig: real, n: real, rel: real)
    requires lo as real <= x <= (lo + len) as real && len > 0 && orig > 0.0 && n > 0.0
    requires rel == (x - lo as real) / len as real
    ensures 0.0 <= rel <= 1.0
    ensures ThroughOriginal(rel, orig, n) == rel * n
    ensures 0.0 <= rel * n
    ensures rel * n < n <==> x < (lo + len) as real
  {
    var a, d := x - lo as real, len as real;
    assert rel * d == a;
    assert orig * (n / orig) == n;
    assert rel * orig * (n / orig) == rel * (orig * (n / orig));
    if rel > 1.0 {
      RealPosProduct(rel - 1.0, d);
      assert false;
    }
    RealNonNegProduct(rel, n);
    if a < d {
      if rel >= 1.0 {
        RealMulMono(d, 1.0, rel);
        assert false;
      }
      RealPosProduct(1.0 - rel, n);
    } else {
      assert rel == 1.0;
    }
  }

  /** `WithinLowRes` of two non-negative coordinates, given which of them is
      short of its side. */
  lemma WithinBySides(lx: real, ly: real, low: (nat, nat), inX: bool, inY: bool)
    requires 0.0 <= lx && 0.0 <= ly
    requires lx < low.0 as real <==> inX
    requires ly < low.1 as real <==> inY
    ensures WithinLowRes(lx, ly, low) == if inX && inY then Some(Vec(lx, ly)) else None
  {
  }

  /** Inside non-degenerate display bounds the low-res point is the relative
      position `(relX, relY)` in the bounds (which lies in [0, 1] x [0, 1])
      times the low-res size; it is dropped exactly on the far (right or
      bottom) edge, where the relative position reaches 1. */
  lemma LowResPointIsRelative(size: (nat, nat), b: Rect, p: Vec, low: (nat, nat), relX: real, relY: real)
    requires size.0 > 0 && size.1 > 0 && low.0 > 0 && low.1 > 0
    requires b.w > 0 && b.h > 0 && InBounds(b, p)
    requires relX == (p.x - b.left as real) / b.w as real && relY == (p.y - b.top as real) / b.h as real
    ensures 0.0 <= relX <= 1.0 && 0.0 <= relY <= 1.0
    ensures ConvertToLowResCoordinates(Some(size), Some(b), p, low)
            == if p.x < (b.left + b.w) as real && p.y < (b.top + b.h) as real
               then Ok(Some(Vec(relX * low.0 as real, relY * low.1 as real)))
               else Ok(None)
  {
    RelativeAxis(p.x, b.left, b.w, size.0 as real, low.0 as real, relX);
    RelativeAxis(p.y, b.top, b.h, size.1 as real, low.1 as real, relY);
    WithinBySides(relX * low.0 as real, relY * low.1 as real, low,
                  p.x < (b.left + b.w) as real, p.y < (b.top + b.h) as real);
    BoundsThroughRelative(size, b, p, low, relX, relY);
    ConvertThroughBounds(size, b, p, low);
  }

  /** The mapping through bounds is `WithinLowRes` of the scaled relative
      position, once each axis's round trip through the original is known. */
  lemma BoundsThroughRelative(size: (nat, nat), b: Rect, p: Vec, low: (nat, nat), relX: real, relY: real)
    requires size.0 > 0 && size.1 > 0 && b.w != 0 && b.h != 0
    requires relX == (p.x - b.left as real) / b.w as real && relY == (p.y - b.top as real) / b.h as real
    requires ThroughOriginal(relX, size.0 as real, low.0 as real) == relX * low.0 as real
    requires ThroughOriginal(relY, size.1 as real, low.1 as real) == relY * low.1 as real
    ensures BoundsToLowRes(size, b, p, low) == WithinLowRes(relX * low.0 as real, relY * low.1 as real, low)
  {
  }

  /** With an image and non-degenerate bounds containing the point, the
      conversion is the mapping through the bounds. */
  lemma ConvertThroughBounds(size: (nat, nat), b: Rect, p: Vec, low: (nat, nat))
    requires size.0 > 0 && size.1 > 0 && b.w > 0 && b.h > 0 && InBounds(b, p)
    ensures ConvertToLowResCoordinates(Some(size), Some(b), p, low) == Ok(BoundsToLowRes(size, b, p, low))
  {
  }

  // ---------------------------------------------------------------------
  // Brush radius on the low-res mask

  /** The brush radius in low-res pixels: the brush size scaled by the
      smaller low-res side over the smaller canvas side, truncated, and at
      least 1; a canvas with a zero side makes the scale division raise. */
  function BrushRadius(brushSize: int, low: (nat, nat), cw: nat, ch: nat): (r: Result<int>)
    ensures r.Err? <==> MinI(cw, ch) == 0
    ensures r.Ok? ==> r.value >= 1
  {
    var m := MinI(cw, ch);
    if m == 0 then Err("ZeroDivisionError: canvas has a zero side")
    else Ok(MaxI(1, Trunc(brushSize as real * (MinI(low.0, low.1) as real / m as real))))
  }

  /** For a non-negative brush size the radius is the integer quotient
      `max(1, brushSize * min(low) // min(canvas))`, so it grows with the
      brush size and never drops below one pixel. */
  lemma BrushRadiusIsQuotient(brushSize: nat, low: (nat, nat), cw: nat, ch: nat)
    requires MinI(cw, ch) > 0
    ensures var r := BrushRadius(brushSize, low, cw, ch);
            r.Ok? && r.value == MaxI(1, (brushSize * MinI(low.0, low.1)) / MinI(cw, ch))
  {
    TruncScaledQuotient(brushSize, MinI(low.0, low.1), MinI(cw, ch));
  }

  // ---------------------------------------------------------------------
  // Preview image

  const PreviewLongSide: nat := 2048

  /** `build_preview_image`'s size: an image whose long side is at most
      2048 is kept; otherwise the long side becomes 2048 and the short side
      the truncated proportional size, at least 1. */
  function PreviewSize(w: nat, h: nat): (r: (int, int))
    requires w >= 1 && h >= 1
    ensures 1 <= r.0 <= PreviewLongSide && 1 <= r.1 <= PreviewLongSide
    ensures MaxI(w, h) <= PreviewLongSide ==> r == (w, h)
    ensures MaxI(w, h) > PreviewLongSide && w >= h ==>
              r == (PreviewLongSide, MaxI(1, (h * PreviewLongSide) / w))
    ensures MaxI(w, h) > PreviewLongSide && w < h ==>
              r == (MaxI(1, (w * PreviewLongSide) / h), PreviewLongSide)
  {
    if MaxI(w, h) <= PreviewLongSide then (w, h)
    else if w >= h then
      var s := Trunc(h as real * (PreviewLongSide as real / w as real));
      PreviewShortSide(h, w, s);
      (PreviewLongSide, MaxI(1, s))
    else
      var s := Trunc(w as real * (PreviewLongSide as real / h as real));
      PreviewShortSide(w, h, s);
      (MaxI(1, s), PreviewLongSide)
  }

  /** The truncated `short * (2048 / long)` is the integer quotient
      `short * 2048 // long`, at most 2048. */
  lemma PreviewShortSide(short: nat, long: nat, s: int)
    requires 1 <= short <= long
    requires s == Trunc(short as real * (PreviewLongSide as real / long as real))
    ensures s == (short * PreviewLongSide) / long && 0 <= s <= PreviewLongSide
  {
    TruncScaledQuotient(short, PreviewLongSide, long);
    DivBracket(short * PreviewLongSide, long);
    if s > PreviewLongSide {
      MulMono(long, PreviewLongSide + 1, s);
      MulMono(PreviewLongSide, short, long);
      assert false;
    }
  }

  /** `build_preview_image`: no image gives none, a small image is copied,
      a large one is resampled (the resampler is a parameter) to
      `PreviewSize`. */
  function BuildPreviewImage(image: Option<Image>, resample: (Image, nat, nat) -> Image): (r: Option<Image>)
    requires image.Some? ==> NonEmpty(image.value)
    requires forall g: Image, w: nat, h: nat :: IsGrid(resample(g, w, h), w, h)
    ensures r.None? <==> image.None?
    ensures r.Some? ==> NonEmpty(r.value)
                        && (Width(r.value), Height(r.value)) == PreviewSize(Width(image.value), Height(image.value))
    ensures r.Some? && MaxI(Width(image.value), Height(image.value)) <= PreviewLongSide ==> r == image
  {
    if image.None? then None
    else
      var w, h := Width(image.value), Height(image.value);
      if MaxI(w, h) <= PreviewLongSide then image
      else
        var size := PreviewSize(w, h);
        var pw: nat, ph: nat := size.0, size.1;
        var g := resample(image.value, pw, ph);
        assert IsGrid(g, pw, ph) && |g[0]| == pw;
        Some(g)
  }

  // ---------------------------------------------------------------------
  // Split view

  /** `_get_split_bounds`: the split view's image rectangle. Without an
      image it is (0, 0, 0, 0); a canvas exactly 40 pixels high leaves a
      zero-height display area and the aspect division raises; otherwise
      the image is fitted into the canvas less a 40-pixel margin, scaled by
      the zoom (never below 1), kept at least 1 x 1, and centred. */
  function SplitBounds(base: Option<(nat, nat)>, cw: int, ch: int, zoom: real): (r: Result<Rect>)
    requires base.Some? ==> base.value.0 > 0 && base.value.1 > 0
    ensures base.None? ==> r == Ok(Rect(0, 0, 0, 0))
    ensures base.Some? ==> (r.Err? <==> ch == 40)
    ensures base.Some? && r.Ok? ==> r.value.w >= 1 && r.value.h >= 1
    ensures base.Some? && r.Ok? ==>
              && -1 <= (cw - (r.value.left + r.value.w)) - r.value.left <= 1
              && -1 <= (ch - (r.value.top + r.value.h)) - r.value.top <= 1
  {
    if base.None? then Ok(Rect(0, 0, 0, 0))
    else
      var dw, dh := cw - 40, ch - 40;
      if dh == 0 then Err("ZeroDivisionError: split display height is zero")
      else
        var fit := FitSize(base.value.0, base.value.1, dw, dh);
        var z := MaxR(1.0, zoom);
        var nw, nh := MaxI(1, Trunc(fit.0 as real * z)), MaxI(1, Trunc(fit.1 as real * z));
        Ok(Rect((cw - nw) / 2, (ch - nh) / 2, nw, nh))
  }

  /** On a canvas larger than its margins and without zoom, the split
      rectangle keeps at least 20 pixels of margin on every side. */
  lemma SplitBoundsInsideMargin(base: (nat, nat), cw: int, ch: int, zoom: real)
    requires base.0 > 0 && base.1 > 0 && cw > 40 && ch > 40 && zoom <= 1.0
    ensures var r := SplitBounds(Some(base), cw, ch, zoom);
            && r.Ok?
            && 20 <= r.value.left && r.value.left + r.value.w <= cw - 20
            && 20 <= r.value.top && r.value.top + r.value.h <= ch - 20
  {
    var fit := FitSize(base.0, base.1, cw - 40, ch - 40);
    assert 0 <= fit.0 <= cw - 40 && 0 <= fit.1 <= ch - 40;
    assert MaxR(1.0, zoom) == 1.0;
    ZoomedSize(fit.0, 1.0);
    ZoomedSize(fit.1, 1.0);
  }

  /** The split position after a click or drag at `(x, y)`: inside bounds of
      positive size it becomes the pointer's relative column clamped to
      [0.05, 0.95]; anywhere else (or when the bounds raise) it stays. */
  function SplitAfterClick(bounds: Result<Rect>, x: int, y: int, split: real): (r: real)
    ensures 0.05 <= split <= 0.95 ==> 0.05 <= r <= 0.95
    ensures (!(bounds.Ok? && bounds.value.w > 0 && bounds.value.h > 0
               && InBounds(bounds.value, Vec(x as real, y as real)))) ==> r == split
  {
    if bounds.Ok? then
      var b := bounds.value;
      if b.w > 0 && b.h > 0 && b.left <= x <= b.left + b.w && b.top <= y <= b.top + b.h then
        Clamp(0.05, 0.95, (x - b.left) as real / b.w as real)
      else split
    else split
  }

  /** A click inside the split rectangle, away from the clamped edges, puts
      the composite's dividing column exactly under the pointer. */
  lemma SplitLineUnderPointer(b: Rect, x: int, y: int, split: real)
    requires b.w > 0 && b.h > 0 && b.left <= x <= b.left + b.w && b.top <= y <= b.top + b.h
    requires 0.05 <= (x - b.left) as real / b.w as real <= 0.95
    ensures Trunc(b.w as real * SplitAfterClick(Ok(b), x, y, split)) == x - b.left
  {
    var rel := (x - b.left) as real / b.w as real;
    assert b.w as real * rel == (x - b.left) as real;
  }

  /** Pixel `(y, x)` of the split composite for dividing column `sx`. */
  function CompositePixel(processed: Image, original: Image, sx: int, y: nat, x: nat): Rgb
    requires y < |processed| && y < |original| && x < |processed[y]| && x < |original[y]|
  {
    if x < sx then processed[y][x] else original[y][x]
  }

  /** The split composite of `display_split_view`: on a black `w` x `h`
      buffer, the processed image's columns left of `int(w * split)` are
      pasted, then the original's columns from there on. */
  method SplitComposite(processed: Image, original: Image, w: nat, h: nat, split: real) returns (r: Image)
    requires IsImage(processed, w, h) && IsImage(original, w, h)
    ensures IsImage(r, w, h)
    ensures forall y, x :: 0 <= y < h && 0 <= x < w ==>
              r[y][x] == if x < Trunc(w as real * split) then processed[y][x] else original[y][x]
  {
    var sx := Trunc(w as real * split);
    var buf := new Rgb[h, w]((i, j) => Rgb(0, 0, 0));
    if sx > 0 {
      var right := MinI(sx, w);
      for y := 0 to h
        invariant forall j, i :: 0 <= j < h && 0 <= i < w ==>
                    buf[j, i] == if j < y && i < sx then processed[j][i] else Rgb(0, 0, 0)
      {
        for x := 0 to right
          invariant forall j, i :: 0 <= j < h && 0 <= i < w ==>
                      buf[j, i] == if (j < y || (j == y && i < x)) && i < sx then processed[j][i] else Rgb(0, 0, 0)
        {
          buf[y, x] := processed[y][x];
        }
      }
    }
    assert forall j, i :: 0 <= j < h && 0 <= i < w ==>
             buf[j, i] == if i < sx then processed[j][i] else Rgb(0, 0, 0);
    if sx < w {
      var left := MaxI(sx, 0);
      for y := 0 to h
        invariant forall j, i :: 0 <= j < h && 0 <= i < w ==>
                    buf[j, i] == if j < y && sx <= i then original[j][i]
                                 else if i < sx then processed[j][i] else Rgb(0, 0, 0)
      {
        for x := left to w
          invariant forall j, i :: 0 <= j < h && 0 <= i < w ==>
                      buf[j, i] == if (j < y || (j == y && left <= i < x)) && sx <= i then original[j][i]
                                   else if i < sx then processed[j][i] else Rgb(0, 0, 0)
        {
          buf[y, x] := original[y][x];
        }
      }
    }
    r := seq(h, j requires 0 <= j < h reads buf => seq(w, i requires 0 <= i < w reads buf => buf[j, i]));
  }

  /** The split composite's extremes: a split at or left of the image edge
      shows the original, one at or past the right edge the processed image. */
  lemma SplitCompositeExtremes(processed: Image, original: Image, w: nat, h: nat, split: real, y: nat, x: nat)
    requires IsImage(processed, w, h) && IsImage(original, w, h) && y < h && x < w
    ensures split <= 0.0 ==> CompositePixel(processed, original, Trunc(w as real * split), y, x) == original[y][x]
    ensures split >= 1.0 ==> CompositePixel(processed, original, Trunc(w as real * split), y, x) == processed[y][x]
  {
    if split <= 0.0 {
      RealMulMono(w as real, split, 0.0);
    }
    if split >= 1.0 {
      RealMulMono(w as real, 1.0, split);
    }
  }

  // ---------------------------------------------------------------------
  // View mode cycle

  const ViewModes: seq<ProcessingMode> := [Single, SideBySide, SplitSlider]

  /** `modes.index(mode)`. */
  function ModeIndex(m: ProcessingMode): (i: nat)
    ensures i < |ViewModes| && ViewModes[i] == m
  {
    match m
    case Single => 0
    case SideBySide => 1
    case SplitSlider => 2
  }

  /** `cycle_view_mode`: the mode after the current one in the list, wrapping. */
  function NextMode(m: ProcessingMode): (r: ProcessingMode)
    ensures r != m
    ensures ModeIndex(r) == (ModeIndex(m) + 1) % |ViewModes|
  {
    ViewModes[(ModeIndex(m) + 1) % |ViewModes|]
  }

  /** Three presses visit every mode once and come back: Single, SideBySide,
      SplitSlider, Single. */
  lemma CycleVisitsAllModes(m: ProcessingMode)
    ensures {m, NextMode(m), NextMode(NextMode(m))} == {Single, SideBySide, SplitSlider}
    ensures NextMode(NextMode(NextMode(m))) == m
    ensures NextMode(Single) == SideBySide && NextMode(SideBySide) == SplitSlider && NextMode(SplitSlider) == Single
  {
  }

  // ---------------------------------------------------------------------
  // Wheel zoom

  const WheelStep: real := 1.1

  /** The zoom after a wheel event of signed amount `raw`: none for a zero
      amount; otherwise the zoom times 1.1 (or divided by 1.1), clamped to
      [1, 5]; none when that changes the zoom by less than 0.001. */
  function WheelZoom(oldZoom: real, raw: int): (r: Option<real>)
    ensures raw == 0 ==> r.None?
    ensures r.Some? ==> MinZoom <= r.value <= MaxZoom
    ensures r.Some? ==> Abs(r.value - oldZoom) >= 0.001
    ensures r.Some? && MinZoom <= oldZoom <= MaxZoom ==> (raw > 0 <==> r.value > oldZoom)
  {
    if raw == 0 then None
    else
      var factor := if raw > 0 then WheelStep else 1.0 / WheelStep;
      var z := Clamp(MinZoom, MaxZoom, oldZoom * factor);
      if Abs(z - oldZoom) < 0.001 then None else Some(z)
  }

  /** `winfo_width() or 1`. */
  function OrOne(n: int): int { if n == 0 then 1 else n }

  /** The pan offset after a wheel zoom from `oldZoom` to `newZoom`: the
      image centre is moved so that the vector from it to the cursor scales
      with the zoom ratio. */
  function AnchoredOffset(cursor: Vec, offset: Vec, cw: int, ch: int, oldZoom: real, newZoom: real): Vec {
    var hw, hh := OrOne(cw) as real / 2.0, OrOne(ch) as real / 2.0;
    var ratio := newZoom / MaxR(0.000001, oldZoom);
    var centre := Vec(hw + offset.x, hh + offset.y);
    var moved := Vec(cursor.x - (cursor.x - centre.x) * ratio, cursor.y - (cursor.y - centre.y) * ratio);
    Vec(moved.x - hw, moved.y - hh)
  }

  /** The offset of the cursor from the image centre, in unzoomed pixels. */
  function UnderCursor(cursor: Vec, offset: Vec, cw: int, ch: int, zoom: real): Vec
    requires zoom != 0.0
  {
    Vec((cursor.x - (OrOne(cw) as real / 2.0 + offset.x)) / zoom,
        (cursor.y - (OrOne(ch) as real / 2.0 + offset.y)) / zoom)
  }

  /** Wheel zoom keeps the image point under the cursor where it is. */
  lemma WheelKeepsCursorPoint(cursor: Vec, offset: Vec, cw: int, ch: int, oldZoom: real, newZoom: real)
    requires oldZoom >= 0.000001 && newZoom > 0.0
    ensures UnderCursor(cursor, AnchoredOffset(cursor, offset, cw, ch, oldZoom, newZoom), cw, ch, newZoom)
            == UnderCursor(cursor, offset, cw, ch, oldZoom)
  {
    var hw, hh := OrOne(cw) as real / 2.0, OrOne(ch) as real / 2.0;
    var ratio := newZoom / oldZoom;
    var vx, vy := cursor.x - (hw + offset.x), cursor.y - (hh + offset.y);
    var o := AnchoredOffset(cursor, offset, cw, ch, oldZoom, newZoom);
    assert cursor.x - (hw + o.x) == vx * ratio;
    assert cursor.y - (hh + o.y) == vy * ratio;
    ScaledQuotient(vx, oldZoom, newZoom);
    ScaledQuotient(vy, oldZoom, newZoom);
  }

  /** `(v * (b / a)) / b == v / a`. */
  lemma ScaledQuotient(v: real, a: real, b: real)
    requires a > 0.0 && b > 0.0
    ensures (v * (b / a)) / b == v / a
  {
    var k := v / a;
    assert v == k * a;
    assert v * (b / a) == k * b;
  }

  // ---------------------------------------------------------------------
  // Brush and eraser events

  /** The working copy a stroke draws on: the existing low-res mask, or a
      fresh one made from the full mask; None when making it raises, on a
      full mask too small for a low-res copy. */
  function WorkingCopy(low: Option<Mask>, full: Mask): (r: Option<Mask>)
    requires low.Some? ==> WellFormedMask(low.value)
    requires WellFormedMask(full)
    ensures r.Some? ==> WellFormedMask(r.value)
    ensures r.None? <==> low.None? && !Drawable(full)
    ensures low.Some? ==> r == low
  {
    if low.Some? then low else if Drawable(full) then Some(LowResOf(full)) else None
  }

  /** What one brush or eraser event does to the working copy `low`: the
      canvas point is mapped onto it and painted with the scaled radius, as
      a stroke from the tool's last point when there is one and as a single
      stamp otherwise. There is no edit when the point does not map, or when
      the mapping or the radius raises. The result is the new working copy
      and the mapped point; `ToolEditProperties` says what the edit does. */
  function ToolEdit(low: Mask, last: Option<Vec>, imageSize: Option<(nat, nat)>, bounds: Option<Rect>,
                    p: Vec, cw: nat, ch: nat, brushSize: int, isErasing: bool): (r: Option<(Mask, Vec)>)
    requires WellFormedMask(low)
    requires imageSize.Some? ==> imageSize.value.0 > 0 && imageSize.value.1 > 0
    ensures r.Some? ==> WellFormedMask(r.value.0)
  {
    var lw, lh := Width(low), Height(low);
    var q := ConvertToLowResCoordinates(imageSize, bounds, p, (lw, lh));
    if q.Err? || q.value.None? then None
    else
      var radius := BrushRadius(brushSize, (lw, lh), cw, ch);
      if radius.Err? then None
      else
        var pt := q.value.value;
        PointerPixelPainted(low, last, pt, radius.value, isErasing);
        if last.Some? then Some((StrokeSpec(low, lw, lh, last.value, pt, radius.value, isErasing), pt))
        else Some((Stamp(low, lw, lh, pt, radius.value, isErasing), pt))
  }

  /** An event edits the mask exactly when its point maps into the working
      copy and the canvas has a size; the edit keeps the copy's size, moves
      every pixel only in the tool's direction, and sets the pixel under
      the pointer to the tool's value. */
  lemma ToolEditProperties(low: Mask, last: Option<Vec>, imageSize: Option<(nat, nat)>, bounds: Option<Rect>,
                           p: Vec, cw: nat, ch: nat, brushSize: int, isErasing: bool)
    requires WellFormedMask(low)
    requires imageSize.Some? ==> imageSize.value.0 > 0 && imageSize.value.1 > 0
    ensures var q := ConvertToLowResCoordinates(imageSize, bounds, p, (Width(low), Height(low)));
            var r := ToolEdit(low, last, imageSize, bounds, p, cw, ch, brushSize, isErasing);
            && (r.Some? <==> q.Ok? && q.value.Some? && MinI(cw, ch) > 0)
            && (r.Some? ==>
                  && IsGrid(r.value.0, Width(low), Height(low))
                  && 0.0 <= r.value.1.x < Width(low) as real && 0.0 <= r.value.1.y < Height(low) as real
                  && r.value.0[Trunc(r.value.1.y)][Trunc(r.value.1.x)] == PaintValue(isErasing)
                  && (!isErasing ==> Dominates(r.value.0, low, Width(low), Height(low)))
                  && (isErasing ==> Dominates(low, r.value.0, Width(low), Height(low))))
  {
    var lw, lh := Width(low), Height(low);
    var q := ConvertToLowResCoordinates(imageSize, bounds, p, (lw, lh));
    if q.Ok? && q.value.Some? {
      var radius := BrushRadius(brushSize, (lw, lh), cw, ch);
      if radius.Ok? {
        PointerPixelPainted(low, last, q.value.value, radius.value, isErasing);
      }
    }
  }

  /** The stroke or stamp of one event keeps the mask well formed, moves it
      only in the tool's direction, and paints the pixel under the pointer. */
  lemma PointerPixelPainted(low: Mask, last: Option<Vec>, pt: Vec, radius: int, isErasing: bool)
    requires WellFormedMask(low)
    requires 0.0 <= pt.x < Width(low) as real && 0.0 <= pt.y < Height(low) as real
    ensures var lw, lh := Width(low), Height(low);
            var m := if last.Some? then StrokeSpec(low, lw, lh, last.value, pt, radius, isErasing)
                     else Stamp(low, lw, lh, pt, radius, isErasing);
            && WellFormedMask(m) && IsGrid(m, lw, lh)
            && m[Trunc(pt.y)][Trunc(pt.x)] == PaintValue(isErasing)
            && (!isErasing ==> Dominates(m, low, lw, lh))
            && (isErasing ==> Dominates(low, m, lw, lh))
  {
    var lw, lh := Width(low), Height(low);
    var x, y := Trunc(pt.x), Trunc(pt.y);
    assert Painted(lw, lh, pt, radius, y, x);
    if last.Some? {
      StrokeProperties(low, lw, lh, last.value, pt, radius, isErasing);
    } else {
      StampDirection(low, lw, lh, pt, radius, isErasing);
    }
  }

  /** The brush or eraser event computed with the loop-based stamp and
      stroke methods. */
  method RunToolEdit(low: Mask, last: Option<Vec>, imageSize: Option<(nat, nat)>, bounds: Option<Rect>,
                     p: Vec, cw: nat, ch: nat, brushSize: int, isErasing: bool) returns (r: Option<(Mask, Vec)>)
    requires WellFormedMask(low)
    requires imageSize.Some? ==> imageSize.value.0 > 0 && imageSize.value.1 > 0
    ensures r == ToolEdit(low, last, imageSize, bounds, p, cw, ch, brushSize, isErasing)
  {
    var lw, lh := Width(low), Height(low);
    var q := ConvertToLowResCoordinates(imageSize, bounds, p, (lw, lh));
    if q.Err? || q.value.None? {
      return None;
    }
    var radius := BrushRadius(brushSize, (lw, lh), cw, ch);
    if radius.Err? {
      return None;
    }
    var pt := q.value.value;
    var updated;
    if last.Some? {
      updated := InterpolatedStroke(low, lw, lh, last.value, pt, radius.value, isErasing);
    } else {
      updated := ApplyCircularBrush(low, lw, lh, pt, radius.value, isErasing);
    }
    r := Some((updated, pt));
  }

  /** The part of the editing session a brush or eraser event reads and
      writes: the undo history, the stroke flag, the working copy, the full
      mask and the two tools' last points. */
  datatype Brushing = Brushing(history: seq<Mask>, dragging: bool, low: Option<Mask>, full: Option<Mask>,
                               lastBrush: Option<Vec>, lastEraser: Option<Vec>)

  /** The session invariant restricted to the brushing state. */
  predicate BrushingValid(b: Brushing) {
    MasksValid(b.history, b.full, b.low)
  }

  /** Starting the stroke and fetching the working copy
      (`start_brush_stroke`, then `get_low_res_mask`): the full mask is
      snapshotted on the stroke's first event only, the stroke flag is set,
      and the working copy is made if missing. Making it raises on a full
      mask too small for a low-res copy, which leaves no working copy. */
  function StartedStroke(b: Brushing): (r: Brushing)
    requires BrushingValid(b) && b.full.Some?
    ensures BrushingValid(r) && r.full == b.full
    ensures r.low.None? <==> b.low.None? && !Drawable(b.full.value)
    ensures r.dragging && r.history == StrokeHistory(b)
  {
    var full := b.full.value;
    b.(history := StrokeHistory(b), dragging := true, low := WorkingCopy(b.low, full))
  }

  /** The history after a stroke's event: the full mask is pushed only when
      no stroke was in progress. */
  function StrokeHistory(b: Brushing): seq<Mask>
    requires BrushingValid(b) && b.full.Some?
  {
    if b.dragging then b.history else PushBounded(b.history, b.full.value, MaxHistorySize)
  }

  /** Installing an edit, if there is one: it becomes the working copy, its
      upscale the full mask, and its point the tool's last point. */
  function EditInstalled(s: Brushing, edit: Option<(Mask, Vec)>, isErasing: bool): (r: Brushing)
    requires BrushingValid(s) && s.full.Some? && s.low.Some?
    requires edit.Some? ==> WellFormedMask(edit.value.0)
    ensures BrushingValid(r) && r.low.Some? && r.full.Some?
    ensures Width(r.full.value) == Width(s.full.value) && Height(r.full.value) == Height(s.full.value)
    ensures r.history == s.history && r.dragging == s.dragging
  {
    if edit.None? then s
    else
      var painted := s.(low := Some(edit.value.0), full := Synced(s.full, Some(edit.value.0)));
      if isErasing then painted.(lastEraser := Some(edit.value.1))
      else painted.(lastBrush := Some(edit.value.1))
  }

  /** A brushing state with the fields `StartedStroke` gives is that state. */
  lemma StartedStrokeIs(b: Brushing, r: Brushing)
    requires BrushingValid(b) && b.full.Some?
    requires r.history == if b.dragging then b.history else PushBounded(b.history, b.full.value, MaxHistorySize)
    requires r.dragging && r.low == WorkingCopy(b.low, b.full.value)
    requires r.full == b.full && r.lastBrush == b.lastBrush && r.lastEraser == b.lastEraser
    ensures r == StartedStroke(b)
  {
  }

  /** A brushing state with the fields `EditInstalled` gives is that state. */
  lemma EditInstalledIs(s: Brushing, edit: Option<(Mask, Vec)>, isErasing: bool, r: Brushing)
    requires BrushingValid(s) && s.full.Some? && s.low.Some? && edit.Some? && WellFormedMask(edit.value.0)
    requires r.history == s.history && r.dragging == s.dragging
    requires r.low == Some(edit.value.0) && r.full == Synced(s.full, Some(edit.value.0))
    requires r.lastEraser == if isErasing then Some(edit.value.1) else s.lastEraser
    requires r.lastBrush == if isErasing then s.lastBrush else Some(edit.value.1)
    ensures r == EditInstalled(s, edit, isErasing)
  {
  }

  /** One brush (or eraser) event at canvas point `p`: nothing without a
      mask; otherwise the stroke is started, and the edit of `ToolEdit` on
      the working copy, if any, is installed. When making the working copy
      raises, the event ends after starting the stroke. */
  function ToolStep(b: Brushing, imageSize: Option<(nat, nat)>, bounds: Option<Rect>,
                    p: Vec, cw: nat, ch: nat, brushSize: int, isErasing: bool): (r: Brushing)
    requires BrushingValid(b)
    requires imageSize.Some? ==> imageSize.value.0 > 0 && imageSize.value.1 > 0
    ensures BrushingValid(r)
    ensures b.full.None? ==> r == b
    ensures b.full.Some? ==> && r.dragging && r.full.Some? && r.history == StrokeHistory(b)
                             && Width(r.full.value) == Width(b.full.value)
                             && Height(r.full.value) == Height(b.full.value)
                             && (r.low.Some? <==> b.low.Some? || Drawable(b.full.value))
  {
    if b.full.None? then b
    else
      var started := StartedStroke(b);
      if started.low.None? then started
      else
        var last := if isErasing then b.lastEraser else b.lastBrush;
        EditInstalled(started, ToolEdit(started.low.value, last, imageSize, bounds, p, cw, ch, brushSize, isErasing),
                      isErasing)
  }

  /** Only the first event of a stroke adds an undo snapshot: a second
      event, wherever it lands, leaves the history as the first left it. */
  lemma StrokeSnapshotsOnce(b: Brushing, imageSize: Option<(nat, nat)>, bounds: Option<Rect>,
                            p1: Vec, p2: Vec, cw: nat, ch: nat, brushSize: int, isErasing: bool)
    requires BrushingValid(b) && b.full.Some?
    requires imageSize.Some? ==> imageSize.value.0 > 0 && imageSize.value.1 > 0
    ensures var first := ToolStep(b, imageSize, bounds, p1, cw, ch, brushSize, isErasing);
            var second := ToolStep(first, imageSize, bounds, p2, cw, ch, brushSize, isErasing);
            && first.history == (if b.dragging then b.history
                                 else PushBounded(b.history, b.full.value, MaxHistorySize))
            && second.history == first.history
  {
    var first := ToolStep(b, imageSize, bounds, p1, cw, ch, brushSize, isErasing);
    assert first.dragging && first.full.Some? && first.history == StrokeHistory(b);
    var second := ToolStep(first, imageSize, bounds, p2, cw, ch, brushSize, isErasing);
    assert second.history == StrokeHistory(first);
  }

  /** The stroke is started before the point is mapped: an event whose
      point misses the working copy, or whose working copy cannot be made,
      still takes the stroke's snapshot, sets the stroke flag and keeps the
      working copy, and changes nothing else. */
  lemma UnmappedEventStillSnapshots(b: Brushing, imageSize: Option<(nat, nat)>, bounds: Option<Rect>,
                                    p: Vec, cw: nat, ch: nat, brushSize: int, isErasing: bool)
    requires BrushingValid(b) && b.full.Some?
    requires imageSize.Some? ==> imageSize.value.0 > 0 && imageSize.value.1 > 0
    ensures var r := ToolStep(b, imageSize, bounds, p, cw, ch, brushSize, isErasing);
            var low := WorkingCopy(b.low, b.full.value);
            var last := if isErasing then b.lastEraser else b.lastBrush;
            (low.None? || ToolEdit(low.value, last, imageSize, bounds, p, cw, ch, brushSize, isErasing).None?) ==>
              && r.history == (if b.dragging then b.history
                               else PushBounded(b.history, b.full.value, MaxHistorySize))
              && r.dragging && r.low == low
              && r.full == b.full && r.lastBrush == b.lastBrush && r.lastEraser == b.lastEraser
  {
  }

  /** An event that edits the mask (`ToolEditProperties` says when) installs
      the edit in the working copy, which then holds the tool's value under
      the pointer, and remembers the point as the tool's last point; every
      other field but the full mask is as on an event without an edit. */
  lemma ToolStepPaintsPointer(b: Brushing, imageSize: Option<(nat, nat)>, bounds: Option<Rect>,
                              p: Vec, cw: nat, ch: nat, brushSize: int, isErasing: bool)
    requires BrushingValid(b) && b.full.Some?
    requires imageSize.Some? ==> imageSize.value.0 > 0 && imageSize.value.1 > 0
    ensures var r := ToolStep(b, imageSize, bounds, p, cw, ch, brushSize, isErasing);
            var low := WorkingCopy(b.low, b.full.value);
            var last := if isErasing then b.lastEraser else b.lastBrush;
            low.Some? ==>
              var edit := ToolEdit(low.value, last, imageSize, bounds, p, cw, ch, brushSize, isErasing);
              edit.Some? ==>
                var pt := edit.value.1;
                && (if isErasing then r.lastEraser else r.lastBrush) == Some(pt)
                && r.low.Some? && IsGrid(r.low.value, Width(low.value), Height(low.value))
                && 0.0 <= pt.x < Width(low.value) as real && 0.0 <= pt.y < Height(low.value) as real
                && r.low.value[Trunc(pt.y)][Trunc(pt.x)] == PaintValue(isErasing)
  {
    var low := WorkingCopy(b.low, b.full.value);
    var last := if isErasing then b.lastEraser else b.lastBrush;
    if low.Some? {
      ToolEditProperties(low.value, last, imageSize, bounds, p, cw, ch, brushSize, isErasing);
    }
  }

  // ---------------------------------------------------------------------
  // The window's event handlers

  const MinSplit: real := 0.05
  const MaxSplit: real := 0.95

  /** The window's view and mouse state over the shared editing session. */
  class SpotlessFilmModern {
    const state: DustRemovalState
    const useGl: bool
    var previewSelected: Option<Image>
    var imageItemBounds: Option<Rect>
    var hasSplitPhoto: bool
    var splitPosition: real
    var isPanning: bool
    var lastMousePos: Option<Vec>

    /** The session is valid, the images have pixels, and the split line
        lies in [0.05, 0.95]. */
    predicate Valid()
      reads this, state
    {
      && state.Valid()
      && HasPixels(state.selectedImage) && HasPixels(previewSelected)
      && MinSplit <= splitPosition <= MaxSplit
    }

    constructor (st: DustRemovalState, gl: bool)
      requires st.Valid() && HasPixels(st.selectedImage)
      ensures Valid() && state == st && useGl == gl
      ensures previewSelected == None && imageItemBounds == None && !hasSplitPhoto
      ensures splitPosition == 0.5 && !isPanning && lastMousePos == None
    {
      state, useGl := st, gl;
      previewSelected, imageItemBounds, hasSplitPhoto := None, None, false;
      splitPosition, isPanning, lastMousePos := 0.5, false, None;
    }

    /** The split view's rectangle, from the preview if there is one. */
    function SplitRect(cw: int, ch: int): Result<Rect>
      requires Valid()
      reads this, state
    {
      var base := if previewSelected.Some? then previewSelected else state.selectedImage;
      SplitBounds(ImageSize(base), cw, ch, state.view.zoomScale)
    }

    /** The brushing part of the session. */
    function Brushed(): Brushing
      reads state
    {
      Brushing(state.maskHistory, state.isDragging, state.lowResMask, state.dustMask,
               state.lastBrushPoint, state.lastEraserPoint)
    }

    /** The brushing state one tool event at `p` leads to. */
    function ToolEvent(p: Vec, cw: nat, ch: nat, isErasing: bool): Brushing
      requires Valid()
      reads this, state
    {
      ToolStep(Brushed(), ImageSize(state.selectedImage), imageItemBounds, p, cw, ch, state.view.brushSize, isErasing)
    }

    /** The first half of a brush event (`start_brush_stroke`, then
        `get_low_res_mask`): one history snapshot per stroke, and the
        working copy, made if missing; None when making it raises. */
    method BeginToolEvent() returns (mask: Option<Mask>)
      requires Valid() && state.dustMask.Some?
      modifies state`maskHistory, state`isDragging, state`lowResMask
      ensures Valid()
      ensures Brushed() == StartedStroke(old(Brushed()))
      ensures state.lowResMask == mask
    {
      ghost var b := Brushed();
      ghost var h0, d0, l0, f0 := state.maskHistory, state.isDragging, state.lowResMask, state.dustMask;
      state.StartBrushStroke();
      assert state.maskHistory == if d0 then h0 else PushBounded(h0, f0.value, MaxHistorySize);
      var raised;
      mask, raised := state.GetLowResMask();
      assert state.lowResMask == WorkingCopy(l0, f0.value);
      StartedStrokeIs(b, Brushed());
    }

    /** The second half of a brush event: install the edit, if any, in the
        working copy and the full mask, and remember its point as the
        tool's last point. */
    method FinishToolEvent(edit: Option<(Mask, Vec)>, isErasing: bool)
      requires Valid() && state.dustMask.Some? && state.lowResMask.Some?
      requires edit.Some? ==> WellFormedMask(edit.value.0)
      modifies state`lowResMask, state`dustMask, state`lastBrushPoint, state`lastEraserPoint
      ensures Valid()
      ensures Brushed() == EditInstalled(old(Brushed()), edit, isErasing)
    {
      ghost var b := Brushed();
      if edit.None? {
        return;
      }
      if isErasing {
        state.lastEraserPoint := Some(edit.value.1);
      } else {
        state.lastBrushPoint := Some(edit.value.1);
      }
      state.UpdateLowResMask(edit.value.0);
      EditInstalledIs(b, edit, isErasing, Brushed());
    }

    /** `apply_eraser_at_point` (`isErasing`) and `apply_brush_at_point`:
        start the stroke, then map the point, then paint; a point that does
        not map still leaves the stroke started. */
    method ApplyToolAtPoint(p: Vec, cw: nat, ch: nat, isErasing: bool)
      requires Valid()
      modifies state`maskHistory, state`isDragging, state`lowResMask, state`dustMask
      modifies state`lastBrushPoint, state`lastEraserPoint
      ensures Valid()
      ensures Brushed() == old(ToolEvent(p, cw, ch, isErasing))
    {
      if state.dustMask.None? {
        return;
      }
      var mask := BeginToolEvent();
      if mask.None? {
        return;
      }
      var last := if isErasing then state.lastEraserPoint else state.lastBrushPoint;
      var edit := RunToolEdit(mask.value, last, ImageSize(state.selectedImage), imageItemBounds, p, cw, ch,
                              state.view.brushSize, isErasing);
      FinishToolEvent(edit, isErasing);
    }

    /** `on_canvas_click`: an active eraser or brush paints; with space held
        a pan starts; in the split view a click inside the image moves the
        split line to the pointer, clamped to [0.05, 0.95]. */
    method OnCanvasClick(x: int, y: int, cw: nat, ch: nat)
      requires Valid()
      modifies state`maskHistory, state`isDragging, state`lowResMask, state`dustMask
      modifies state`lastBrushPoint, state`lastEraserPoint
      modifies this`isPanning, this`lastMousePos, this`splitPosition
      ensures Valid()
      ensures var p := Vec(x as real, y as real);
              var erase := state.view.toolMode == Eraser && old(state.dustMask).Some?;
              var paint := !erase && state.view.toolMode == Brush && old(state.dustMask).Some?;
              var pan := !erase && !paint && state.view.spaceKeyPressed;
              && (erase ==> Brushed() == old(ToolEvent(p, cw, ch, true)))
              && (paint ==> Brushed() == old(ToolEvent(p, cw, ch, false)))
              && (erase || paint ==>
                    isPanning == old(isPanning) && lastMousePos == old(lastMousePos)
                    && splitPosition == old(splitPosition))
              && (pan ==> isPanning && lastMousePos == Some(p) && splitPosition == old(splitPosition)
                          && unchanged(state))
              && (!erase && !paint && !pan ==>
                    && isPanning == old(isPanning) && lastMousePos == old(lastMousePos) && unchanged(state)
                    && splitPosition == if state.view.processingMode == SplitSlider && hasSplitPhoto
                                        then SplitAfterClick(old(SplitRect(cw, ch)), x, y, old(splitPosition))
                                        else old(splitPosition))
    {
      var p := Vec(x as real, y as real);
      if state.view.toolMode == Eraser && state.dustMask.Some? {
        ApplyToolAtPoint(p, cw, ch, true);
        return;
      }
      if state.view.toolMode == Brush && state.dustMask.Some? {
        ApplyToolAtPoint(p, cw, ch, false);
        return;
      }
      if state.view.spaceKeyPressed {
        isPanning := true;
        lastMousePos := Some(p);
        return;
      }
      if state.view.processingMode == SplitSlider && hasSplitPhoto {
        splitPosition := SplitAfterClick(SplitRect(cw, ch), x, y, splitPosition);
      }
    }

    /** `on_canvas_drag`: an active eraser or brush paints; a pan in progress
        moves the view by the pointer's motion since the last event; in
        the split view the split line follows the pointer as on a click. */
    method OnCanvasDrag(x: int, y: int, cw: nat, ch: nat)
      requires Valid()
      modifies state`maskHistory, state`isDragging, state`lowResMask, state`dustMask
      modifies state`lastBrushPoint, state`lastEraserPoint, state`view
      modifies this`lastMousePos, this`splitPosition
      ensures Valid()
      ensures var p := Vec(x as real, y as real);
              var erase := old(state.view.toolMode) == Eraser && old(state.dustMask).Some?;
              var paint := !erase && old(state.view.toolMode) == Brush && old(state.dustMask).Some?;
              var pan := !erase && !paint && isPanning && old(lastMousePos).Some?;
              && (erase ==> Brushed() == old(ToolEvent(p, cw, ch, true)))
              && (paint ==> Brushed() == old(ToolEvent(p, cw, ch, false)))
              && (erase || paint ==>
                    && lastMousePos == old(lastMousePos) && splitPosition == old(splitPosition)
                    && state.view == old(state.view))
              && (pan ==>
                    && state.view == old(state.view).(dragOffset :=
                         DragStep(old(state.view.dragOffset), old(lastMousePos).value, p))
                    && lastMousePos == Some(p) && splitPosition == old(splitPosition)
                    && state.maskHistory == old(state.maskHistory) && state.dustMask == old(state.dustMask)
                    && state.lowResMask == old(state.lowResMask) && state.isDragging == old(state.isDragging)
                    && state.lastBrushPoint == old(state.lastBrushPoint)
                    && state.lastEraserPoint == old(state.lastEraserPoint))
              && (!erase && !paint && !pan ==>
                    && lastMousePos == old(lastMousePos) && unchanged(state)
                    && splitPosition == if state.view.processingMode == SplitSlider && hasSplitPhoto
                                        then SplitAfterClick(old(SplitRect(cw, ch)), x, y, old(splitPosition))
                                        else old(splitPosition))
    {
      var p := Vec(x as real, y as real);
      if state.view.toolMode == Eraser && state.dustMask.Some? {
        ApplyToolAtPoint(p, cw, ch, true);
        return;
      }
      if state.view.toolMode == Brush && state.dustMask.Some? {
        ApplyToolAtPoint(p, cw, ch, false);
        return;
      }
      if isPanning && lastMousePos.Some? {
        state.view := state.view.(dragOffset := DragStep(state.view.dragOffset, lastMousePos.value, p));
        lastMousePos := Some(p);
        return;
      }
      if state.view.processingMode == SplitSlider && hasSplitPhoto {
        splitPosition := SplitAfterClick(SplitRect(cw, ch), x, y, splitPosition);
      }
    }

    /** `on_mouse_wheel`: zoom by one 1.1 step, clamped to [1, 5], ignoring
        changes below 0.001; outside the GL view the pan offset is moved so
        that the image point under the cursor stays put. */
    method OnMouseWheel(raw: int, cursor: Vec, cw: int, ch: int)
      requires Valid()
      modifies state`view
      ensures Valid()
      ensures var z := WheelZoom(old(state.view.zoomScale), raw);
              && (z.None? ==> state.view == old(state.view))
              && (z.Some? && useGl ==> state.view == old(state.view).(zoomScale := z.value))
              && (z.Some? && !useGl ==>
                    state.view == old(state.view).(zoomScale := z.value, dragOffset :=
                      AnchoredOffset(cursor, old(state.view.dragOffset), cw, ch, old(state.view.zoomScale), z.value)))
    {
      var z := WheelZoom(state.view.zoomScale, raw);
      if z.None? {
        return;
      }
      if !useGl {
        var offset := AnchoredOffset(cursor, state.view.dragOffset, cw, ch, state.view.zoomScale, z.value);
        state.view := state.view.(dragOffset := offset);
      }
      state.view := state.view.(zoomScale := z.value);
    }

    /** `cycle_view_mode`. */
    method CycleViewMode()
      requires Valid()
      modifies state`view
      ensures Valid()
      ensures state.view == old(state.view).(processingMode := NextMode(old(state.view.processingMode)))
    {
      state.view := state.view.(processingMode := NextMode(state.view.processingMode));
    }

    /** `on_canvas_release`: stop panning, and finish the stroke when a
        drawing tool is active. */
    method OnCanvasRelease()
      requires Valid()
      modifies this`isPanning, this`lastMousePos
      modifies state`isDragging, state`lastBrushPoint, state`lastEraserPoint, state`dustMask
      ensures Valid()
      ensures !isPanning && lastMousePos == None
      ensures state.view.toolMode in {Brush, Eraser} ==>
                && !state.isDragging && state.lastBrushPoint == None && state.lastEraserPoint == None
                && state.dustMask == Synced(old(state.dustMask), state.lowResMask)
      ensures state.view.toolMode !in {Brush, Eraser} ==> unchanged(state)
    {
      isPanning := false;
      lastMousePos := None;
      if state.view.toolMode == Brush || state.view.toolMode == Eraser {
        state.EndBrushStroke();
      }
    }
  }
}
