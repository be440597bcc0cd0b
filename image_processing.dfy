/** The whole-array operations of `ImageProcessingService`: thresholding a
    dust-probability prediction into a 0/255 mask, dilating a mask with the
    fixed 5x5 elliptical kernel, and blending the inpainted image back into
    the original through the mask. */
module ImageProcessingService {
  import opened Common
  import opened Grids

  /** A single-channel 8-bit image (PIL mode 'L'): grid[y][x] in 0..255. */
  type Mask = seq<seq<int>>

  /** One RGB pixel, each channel an 8-bit value. */
  datatype Rgb = Rgb(r: int, g: int, b: int)

  type Image = seq<seq<Rgb>>

  predicate IsMask(m: Mask, w: nat, h: nat) {
    IsGrid(m, w, h) && forall y, x :: 0 <= y < h && 0 <= x < w ==> 0 <= m[y][x] <= 255
  }

  /** A decodable 8-bit mask: rectangular, at least one pixel. */
  predicate WellFormedMask(m: Mask) {
    NonEmpty(m) && IsMask(m, Width(m), Height(m))
  }

  /** `mask.resize((nw, nh), Image.NEAREST)`: every pixel is copied from the
      source, so 8-bit masks stay 8-bit and 0/255 masks stay 0/255. */
  function ResizeMask(m: Mask, nw: nat, nh: nat): (r: Mask)
    requires WellFormedMask(m)
    ensures IsMask(r, nw, nh)
    ensures nw > 0 && nh > 0 ==> WellFormedMask(r)
    ensures IsBinary(m) ==> IsBinary(r)
  {
    var r := NearestResize(Pil, m, Width(m), Height(m), nw, nh);
    assert forall y, x :: 0 <= y < nh && 0 <= x < nw ==>
      r[y][x] == m[SourceIndex(Pil, y, Height(m), nh)][SourceIndex(Pil, x, Width(m), nw)];
    r
  }

  /** Every pixel is 0 ("not dust") or 255 ("dust"). */
  predicate IsBinary(m: Mask) {
    forall y, x :: 0 <= y < |m| && 0 <= x < |m[y]| ==> m[y][x] == 0 || m[y][x] == 255
  }

  /** `a` is at least `b` at every pixel; for binary masks, `a` is a superset of `b`. */
  predicate Dominates(a: Mask, b: Mask, w: nat, h: nat)
    requires IsGrid(a, w, h) && IsGrid(b, w, h)
  {
    forall y, x :: 0 <= y < h && 0 <= x < w ==> a[y][x] >= b[y][x]
  }

  predicate InByteRange(p: Rgb) { 0 <= p.r <= 255 && 0 <= p.g <= 255 && 0 <= p.b <= 255 }

  predicate IsImage(img: Image, w: nat, h: nat) {
    IsGrid(img, w, h) && forall y, x :: 0 <= y < h && 0 <= x < w ==> InByteRange(img[y][x])
  }

  // ---------------------------------------------------------------------
  // Thresholding

  /** `(prediction > threshold).astype(np.uint8) * 255`, cell by cell. */
  function Binarize(p: seq<seq<real>>, t: real): (m: Mask)
    ensures |m| == |p| && forall y :: 0 <= y < |p| ==> |m[y]| == |p[y]|
    ensures IsBinary(m)
    ensures forall y, x :: 0 <= y < |p| && 0 <= x < |p[y]| ==> (m[y][x] == 255 <==> p[y][x] > t)
  {
    seq(|p|, y requires 0 <= y < |p| =>
      seq(|p[y]|, x requires 0 <= x < |p[y]| => if p[y][x] > t then 255 else 0))
  }

  /** A model prediction tensor: `leading` singleton axes in front of an
      H x W plane, i.e. an array of rank `leading + 2`. */
  datatype Prediction = Prediction(leading: nat, plane: seq<seq<real>>)

  /** On a rank-3 or rank-4 tensor `squeeze()` drops every singleton axis,
      the plane's own included: a 1 x 1 plane becomes a 0-d array, which
      `Image.fromarray` cannot size, so the call raises. */
  predicate SqueezeRaises(pred: Prediction) {
    1 <= pred.leading <= 2 && Width(pred.plane) == 1 && Height(pred.plane) == 1
  }

  /** The plane as the image `Image.fromarray` builds after the squeeze. A
      1 x W row at rank 3 or 4 becomes a 1-d array of length W, which PIL
      reads as an image one pixel wide and W tall: the row transposed into
      a column. Every other plane keeps its shape (an H x 1 column becomes a
      1-d array of length H, which PIL reads as that same column). */
  function SqueezedPlane(pred: Prediction): (p: seq<seq<real>>)
    requires NonEmpty(pred.plane)
    ensures NonEmpty(p)
    ensures pred.leading == 0 || Height(pred.plane) >= 2 ==> p == pred.plane
    ensures pred.leading >= 1 && Height(pred.plane) == 1 ==>
              && IsGrid(p, 1, Width(pred.plane))
              && forall y :: 0 <= y < Width(pred.plane) ==> p[y][0] == pred.plane[0][y]
  {
    var row := pred.plane[0];
    if pred.leading >= 1 && Height(pred.plane) == 1 then seq(|row|, y requires 0 <= y < |row| => [row[y]])
    else pred.plane
  }

  /** `create_binary_mask`: a tensor whose rank is not 2, 3 or 4 gives no
      mask (`Ok(None)`); one whose squeezed plane PIL cannot turn into an
      image makes the call raise (`Err`); otherwise the squeezed plane is
      thresholded first, and the binary mask is then nearest-resized to
      `original_size` = (ow, oh) when its size differs. */
  function CreateBinaryMask(pred: Prediction, t: real, ow: nat, oh: nat): (r: Result<Option<Mask>>)
    requires NonEmpty(pred.plane) && ow > 0 && oh > 0
    ensures r.Err? <==> SqueezeRaises(pred)
    ensures r == Ok(None) <==> pred.leading > 2
    ensures r.Ok? && r.value.Some? ==> IsMask(r.value.value, ow, oh) && IsBinary(r.value.value)
  {
    if pred.leading > 2 then Ok(None)
    else if SqueezeRaises(pred) then Err("0-d array has no image size")
    else
      var plane := SqueezedPlane(pred);
      var pw, ph := Width(plane), Height(plane);
      var m := Binarize(plane, t);
      assert IsGrid(m, pw, ph);
      if (pw, ph) != (ow, oh) then
        var rm := NearestResize(Pil, m, pw, ph, ow, oh);
        assert forall y, x :: 0 <= y < oh && 0 <= x < ow ==>
          rm[y][x] == m[SourceIndex(Pil, y, ph, oh)][SourceIndex(Pil, x, pw, ow)];
        Ok(Some(rm))
      else
        Ok(Some(m))
  }

  /** Threshold-then-resize: each output pixel is 255 exactly when the
      prediction at the cell the nearest resize samples for it exceeds the
      threshold. That cell is in the plane as given, except for a single
      row at rank 3 or 4, which is read as its own transpose; and it is the
      pixel itself when the sizes already agree. */
  lemma CreateBinaryMaskPixel(pred: Prediction, t: real, ow: nat, oh: nat, y: nat, x: nat)
    requires NonEmpty(pred.plane) && ow > 0 && oh > 0 && pred.leading <= 2 && !SqueezeRaises(pred)
    requires y < oh && x < ow
    ensures var pw, ph := Width(pred.plane), Height(pred.plane);
            var v := CreateBinaryMask(pred, t, ow, oh).value.value[y][x];
            && (pred.leading == 0 || ph >= 2 ==>
                  var sy, sx := SourceIndex(Pil, y, ph, oh), SourceIndex(Pil, x, pw, ow);
                  && (v == 255 <==> pred.plane[sy][sx] > t)
                  && ((pw, ph) == (ow, oh) ==> sy == y && sx == x))
            && (pred.leading >= 1 && ph == 1 ==>
                  (v == 255 <==> pred.plane[0][SourceIndex(Pil, y, pw, oh)] > t))
  {
    var plane := SqueezedPlane(pred);
    var pw, ph := Width(plane), Height(plane);
    if (pw, ph) == (ow, oh) {
      SourceIndexSameSize(Pil, y, ph);
      SourceIndexSameSize(Pil, x, pw);
    }
    if pred.leading >= 1 && Height(pred.plane) == 1 {
      assert SourceIndex(Pil, x, pw, ow) == 0;
    }
  }

  /** Raising the threshold never adds a set pixel. */
  lemma ThresholdMonotone(pred: Prediction, t1: real, t2: real, ow: nat, oh: nat)
    requires NonEmpty(pred.plane) && ow > 0 && oh > 0 && pred.leading <= 2 && !SqueezeRaises(pred)
    requires t1 <= t2
    ensures Dominates(CreateBinaryMask(pred, t1, ow, oh).value.value, CreateBinaryMask(pred, t2, ow, oh).value.value, ow, oh)
  {
    var lo, hi := CreateBinaryMask(pred, t1, ow, oh).value.value, CreateBinaryMask(pred, t2, ow, oh).value.value;
    forall y, x | 0 <= y < oh && 0 <= x < ow ensures lo[y][x] >= hi[y][x] {
      CreateBinaryMaskPixel(pred, t1, ow, oh, y, x);
      CreateBinaryMaskPixel(pred, t2, ow, oh, y, x);
    }
  }

  // ---------------------------------------------------------------------
  // Dilation with cv2.getStructuringElement(MORPH_ELLIPSE, (5, 5))

  /** The 5x5 elliptical kernel as OpenCV builds it, stated as a predicate on
      offsets from its centre: the three middle rows are full and the top
      and bottom rows hold only the centre column. */
  predicate InKernel(dy: int, dx: int) {
    -2 <= dy <= 2 && -2 <= dx <= 2 && (dx == 0 || -1 <= dy <= 1)
  }

  /** Kernel cell `j` (0..24, row-major) as offsets from the centre. */
  function KernelDy(j: nat): int { j / 5 - 2 }

  function KernelDx(j: nat): int { j % 5 - 2 }

  /** Kernel cell `j` is in the ellipse and lands inside the `w` x `h` mask
      when centred on (x, y); cells off the mask are ignored, which is what
      cv2.dilate's default border value does. */
  predicate Tap(w: nat, h: nat, y: nat, x: nat, j: nat) {
    && InKernel(KernelDy(j), KernelDx(j))
    && 0 <= y + KernelDy(j) < h && 0 <= x + KernelDx(j) < w
  }

  function TapValue(m: Mask, w: nat, h: nat, y: nat, x: nat, j: nat): int
    requires IsGrid(m, w, h) && Tap(w, h, y, x, j)
  {
    m[y + KernelDy(j)][x + KernelDx(j)]
  }

  /** Maximum of the pixel at (x, y) and the kernel taps 0..k-1 around it. */
  function WindowMax(m: Mask, w: nat, h: nat, y: nat, x: nat, k: nat): (r: int)
    requires IsGrid(m, w, h) && y < h && x < w && k <= 25
    ensures r >= m[y][x]
    ensures forall j :: 0 <= j < k && Tap(w, h, y, x, j) ==> r >= TapValue(m, w, h, y, x, j)
    ensures r == m[y][x] || exists j :: 0 <= j < k && Tap(w, h, y, x, j) && r == TapValue(m, w, h, y, x, j)
  {
    if k == 0 then m[y][x]
    else
      var prev := WindowMax(m, w, h, y, x, k - 1);
      if Tap(w, h, y, x, k - 1) && TapValue(m, w, h, y, x, k - 1) > prev
      then TapValue(m, w, h, y, x, k - 1)
      else prev
  }

  /** `dilate_mask`: every output pixel is the maximum over the kernel window. */
  function Dilate(m: Mask, w: nat, h: nat): (r: Mask)
    requires IsGrid(m, w, h)
    ensures IsGrid(r, w, h)
  {
    seq(h, y requires 0 <= y < h => seq(w, x requires 0 <= x < w => WindowMax(m, w, h, y, x, 25)))
  }

  /** Dilation is extensive (the kernel holds its centre), keeps a 0/255 mask
      0/255, and sets every pixel within the kernel of a set pixel. */
  lemma DilateProperties(m: Mask, w: nat, h: nat)
    requires IsMask(m, w, h)
    ensures IsMask(Dilate(m, w, h), w, h)
    ensures Dominates(Dilate(m, w, h), m, w, h)
    ensures IsBinary(m) ==> IsBinary(Dilate(m, w, h))
    ensures forall y, x, dy, dx :: 0 <= y < h && 0 <= x < w && InKernel(dy, dx)
              && 0 <= y + dy < h && 0 <= x + dx < w && m[y + dy][x + dx] == 255
              ==> Dilate(m, w, h)[y][x] >= 255
  {
    var d := Dilate(m, w, h);
    forall y, x | 0 <= y < h && 0 <= x < w
      ensures 0 <= d[y][x] <= 255
      ensures IsBinary(m) ==> d[y][x] == 0 || d[y][x] == 255
    {
      var v := WindowMax(m, w, h, y, x, 25);
      assert d[y][x] == v;
    }
    forall y, x, dy, dx | 0 <= y < h && 0 <= x < w && InKernel(dy, dx)
        && 0 <= y + dy < h && 0 <= x + dx < w && m[y + dy][x + dx] == 255
      ensures d[y][x] >= 255
    {
      var j: nat := (dy + 2) * 5 + (dx + 2);
      assert KernelDy(j) == dy && KernelDx(j) == dx;
      assert Tap(w, h, y, x, j);
    }
  }

  // ---------------------------------------------------------------------
  // Blending

  /** One channel of `orig * (1 - m/255) + inp * (m/255)`, clipped to
      [0, 255] and truncated by `astype(np.uint8)`; exact real arithmetic
      stands in for float32. */
  function BlendChannel(o: int, i: int, m: int): (r: int)
    requires 0 <= o <= 255 && 0 <= i <= 255 && 0 <= m <= 255
    ensures m == 0 ==> r == o
    ensures m == 255 ==> r == i
    ensures MinI(o, i) <= r <= MaxI(o, i)
  {
    var a := m as real / 255.0;
    var v := o as real * (1.0 - a) + i as real * a;
    BetweenEnds(o, i, a);
    assert Clamp(0.0, 255.0, v) == v;
    Trunc(v)
  }

  /** A convex combination of two values lies between them. */
  lemma BetweenEnds(o: int, i: int, a: real)
    requires 0.0 <= a <= 1.0
    ensures MinI(o, i) as real <= o as real * (1.0 - a) + i as real * a <= MaxI(o, i) as real
  {
    var x, y := o as real, i as real;
    var v := x * (1.0 - a) + y * a;
    assert v == x + a * (y - x);
    var d := if x <= y then y - x else x - y;
    RealNonNegProduct(a, d);
    RealNonNegProduct(1.0 - a, d);
    assert d - a * d == (1.0 - a) * d;
  }

  function BlendPixel(o: Rgb, i: Rgb, m: int): (p: Rgb)
    requires InByteRange(o) && InByteRange(i) && 0 <= m <= 255
    ensures InByteRange(p)
  {
    Rgb(BlendChannel(o.r, i.r, m), BlendChannel(o.g, i.g, m), BlendChannel(o.b, i.b, m))
  }

  /** The mask brought to `w` x `h` by a nearest resize when its size differs. */
  function MaskAtSize(mask: Mask, w: nat, h: nat): (r: Mask)
    requires WellFormedMask(mask)
    ensures IsMask(r, w, h)
    ensures IsGrid(mask, w, h) ==> r == mask
  {
    if Width(mask) == w && Height(mask) == h then mask else ResizeMask(mask, w, h)
  }

  /** `blend_images`: the output has the original's size; the inpainted
      image is first brought to that size by `lanczos` (PIL's LANCZOS
      resample, opaque here) and the mask by a nearest resize, when their
      sizes differ. Where the mask is 255 the output is the inpainted pixel,
      where it is 0 the original one, and in between each channel lies
      between the two. */
  function BlendImages(original: Image, inpainted: Image, mask: Mask, lanczos: Image -> Image): (r: Image)
    requires NonEmpty(original) && IsImage(original, Width(original), Height(original))
    requires IsRect(inpainted) && IsImage(inpainted, Width(inpainted), Height(inpainted))
    requires NonEmpty(mask) && IsMask(mask, Width(mask), Height(mask))
    requires forall g :: IsImage(lanczos(g), Width(original), Height(original))
    ensures IsImage(r, Width(original), Height(original))
    ensures var w, h := Width(original), Height(original);
            (IsGrid(inpainted, w, h) && IsGrid(mask, w, h)) ==>
              forall y, x :: 0 <= y < h && 0 <= x < w ==>
                (mask[y][x] == 255 ==> r[y][x] == inpainted[y][x]) &&
                (mask[y][x] == 0 ==> r[y][x] == original[y][x])
  {
    var w, h := Width(original), Height(original);
    var inp := if Width(inpainted) == w && Height(inpainted) == h then inpainted else lanczos(inpainted);
    BlendAligned(original, inp, MaskAtSize(mask, w, h), w, h)
  }

  /** The per-pixel blend of three grids of the same size. */
  function BlendAligned(original: Image, inp: Image, msk: Mask, w: nat, h: nat): (r: Image)
    requires IsImage(original, w, h) && IsImage(inp, w, h) && IsMask(msk, w, h)
    ensures IsImage(r, w, h)
    ensures forall y, x :: 0 <= y < h && 0 <= x < w ==> r[y][x] == BlendPixel(original[y][x], inp[y][x], msk[y][x])
  {
    seq(h, y requires 0 <= y < h =>
      seq(w, x requires 0 <= x < w => BlendPixel(original[y][x], inp[y][x], msk[y][x])))
  }
}
