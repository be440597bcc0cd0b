/** The stand-alone drag-and-drop dust remover: a grey image is padded by
    reflection up to a multiple of the stride, cut into overlapping
    1024 x 1024 patches (stride 512), each patch is run through the
    detection model, overlapping outputs are averaged, and the average is
    thresholded into a 0/1 mask; the mask is then dilated for inpainting and
    the result is saved next to the input under a suffixed name. */
module BatchApp {
  import opened Common
  import opened Grids
  import opened ImageProcessingService

  const PatchSize: nat := 1024
  const Stride: nat := 512

  // ---------------------------------------------------------------------
  // Padding

  /** Rows (or columns) of padding added after an axis of `n` cells:
      `(patch - n % stride) % stride`, or none when `n` is already a
      multiple of the stride. */
  function PadAmount(n: nat): nat {
    if n % Stride != 0 then (PatchSize - n % Stride) % Stride else 0
  }

  /** Padding rounds the axis up to the next multiple of the stride, and
      adds less than one stride. */
  lemma PadToStride(n: nat)
    ensures (n + PadAmount(n)) % Stride == 0
    ensures PadAmount(n) < Stride
    ensures n % Stride == 0 <==> PadAmount(n) == 0
    ensures (n + PadAmount(n)) / Stride == (n + Stride - 1) / Stride
  {
    var q, r := n / Stride, n % Stride;
    if r != 0 {
      DivUnique(PatchSize - r, Stride, 1);
      assert PadAmount(n) == Stride - r;
      assert n + PadAmount(n) == Stride * (q + 1);
      DivUnique(n + PadAmount(n), Stride, q + 1);
      DivUnique(n + Stride - 1, Stride, q + 1);
    } else {
      DivUnique(n + Stride - 1, Stride, q);
    }
  }

  /** The cell `np.pad(..., mode='reflect')` copies into position `i` of a
      padded axis of `n` cells: the axis reflected about its end cells
      without repeating them, which repeats with period 2(n - 1). */
  function ReflectIndex(i: nat, n: nat): (r: nat)
    requires n > 0
    ensures r < n
    ensures i < n ==> r == i
  {
    if n == 1 then 0
    else
      var p := 2 * (n - 1);
      DivBracket(i, p);
      var j := i % p;
      assert i < n ==> j == i by {
        if i < n {
          DivUnique(i, p, 0);
        }
      }
      if j < n then j else p - j
  }

  /** Reflection about the last cell: one step past the end reads one step
      before it. */
  lemma ReflectMirrorsEnd(n: nat, k: nat)
    requires n > 1 && 0 < k < n
    ensures ReflectIndex(n - 1 + k, n) == n - 1 - k
  {
    var p := 2 * (n - 1);
    if k < n - 1 {
      DivUnique(n - 1 + k, p, 0);
    } else {
      DivUnique(n - 1 + k, p, 1);
    }
  }

  /** The image reflect-padded at the bottom and right to `pw` x `ph`. */
  function Padded(img: Mask, w: nat, h: nat, pw: nat, ph: nat): (r: Mask)
    requires IsMask(img, w, h) && w > 0 && h > 0
    ensures IsMask(r, pw, ph)
  {
    var r := seq(ph, y requires 0 <= y < ph =>
      seq(pw, x requires 0 <= x < pw => img[ReflectIndex(y, h)][ReflectIndex(x, w)]));
    assert forall y, x :: 0 <= y < ph && 0 <= x < pw ==> r[y][x] == img[ReflectIndex(y, h)][ReflectIndex(x, w)];
    r
  }

  /** The top-left `w` x `h` cells of a grid (`final_mask[:H, :W]`). */
  function Crop<T>(g: seq<seq<T>>, w: nat, h: nat): (r: seq<seq<T>>)
    requires h <= |g| && forall y :: 0 <= y < h ==> w <= |g[y]|
    ensures IsGrid(r, w, h)
    ensures forall y, x :: 0 <= y < h && 0 <= x < w ==> r[y][x] == g[y][x]
  {
    seq(h, y requires 0 <= y < h => g[y][..w])
  }

  /** Cropping the padded image back to the original size gives the image. */
  lemma CropUndoesPadding(img: Mask, w: nat, h: nat, pw: nat, ph: nat)
    requires IsMask(img, w, h) && 0 < w <= pw && 0 < h <= ph
    ensures Crop(Padded(img, w, h, pw, ph), w, h) == img
  {
    var c := Crop(Padded(img, w, h, pw, ph), w, h);
    forall y | 0 <= y < h ensures c[y] == img[y] {
      assert forall x :: 0 <= x < w ==> c[y][x] == img[y][x];
    }
  }

  // ---------------------------------------------------------------------
  // Patch origins and coverage

  /** `len(range(0, n - patch + 1, stride))`: how many patch origins fit
      along an axis of `n` cells. */
  function NumOrigins(n: nat): (r: nat)
    ensures forall j: nat :: j < r <==> j * Stride + PatchSize <= n
  {
    var stop := n - PatchSize + 1;
    var r := if stop <= 0 then 0 else (stop + Stride - 1) / Stride;
    assert forall j: nat :: j < r <==> j * Stride + PatchSize <= n by {
      if stop > 0 {
        DivBracket(stop + Stride - 1, Stride);
      }
    }
    r
  }

  /** The patch starting at `o` covers cell `i` of the axis. */
  predicate Covers(o: nat, i: nat) { o <= i < o + PatchSize }

  /** How many of the first `k` origins along an axis cover cell `i`. */
  function AxisCover(k: nat, i: nat): nat {
    if k == 0 then 0 else AxisCover(k - 1, i) + (if Covers((k - 1) * Stride, i) then 1 else 0)
  }

  /** The origins covering `i` are those numbered `i / stride - 1` and
      `i / stride`, so `k` origins cover it this many times. */
  lemma {:induction false} AxisCoverClosedForm(k: nat, i: nat)
    ensures AxisCover(k, i) == MaxI(0, MinI(i / Stride, k - 1) - MaxI(0, i / Stride - 1) + 1)
  {
    if k > 0 {
      AxisCoverClosedForm(k - 1, i);
      var q := i / Stride;
      DivBracket(i, Stride);
      assert Covers((k - 1) * Stride, i) <==> q - 1 <= k - 1 <= q;
    }
  }

  /** On a padded axis (a multiple of the stride, at least one patch long)
      every cell is covered by one or two patches: two in the interior, one
      in the first and last half-patch. */
  lemma AxisCoverOneOrTwo(n: nat, i: nat)
    requires n % Stride == 0 && n >= PatchSize && i < n
    ensures 1 <= AxisCover(NumOrigins(n), i) <= 2
    ensures AxisCover(NumOrigins(n), i) == 1 <==> i < Stride || i >= n - Stride
  {
    var k := NumOrigins(n);
    AxisCoverClosedForm(k, i);
    DivBracket(i, Stride);
    DivBracket(n, Stride);
    assert (k - 1) * Stride + PatchSize <= n;
    assert k * Stride + PatchSize > n;
    assert n == Stride * (n / Stride);
    assert k == n / Stride - 1;
  }

  /** An axis shorter than one patch has no origins, so no cell is covered. */
  lemma ShortAxisUncovered(n: nat, i: nat)
    requires n < PatchSize
    ensures NumOrigins(n) == 0 && AxisCover(NumOrigins(n), i) == 0
  {
  }

  // ---------------------------------------------------------------------
  // Patch-wise detection

  /** The detection network, left opaque: a patch of intensities in [0, 1]
      to a patch of dust probabilities. */
  type Model = seq<seq<real>> -> seq<seq<real>>

  /** The network's output for a patch is a patch (after `squeeze`). */
  ghost predicate PatchShaped(model: Model) {
    forall p :: IsGrid(model(p), PatchSize, PatchSize)
  }

  /** The network's outputs are probabilities. */
  ghost predicate OutputsProbabilities(model: Model) {
    forall p, y, x :: 0 <= y < |model(p)| && 0 <= x < |model(p)[y]| ==> 0.0 <= model(p)[y][x] <= 1.0
  }

  /** The padded image and the network a detection runs over. */
  datatype Tiling = Tiling(padded: Mask, pw: nat, ph: nat, model: Model)

  ghost predicate ValidTiling(t: Tiling) {
    IsMask(t.padded, t.pw, t.ph) && PatchShaped(t.model)
  }

  /** The patch at origin `(oy, ox)`, scaled from 0..255 to [0, 1]. */
  function PatchInput(t: Tiling, oy: nat, ox: nat): (r: seq<seq<real>>)
    requires ValidTiling(t) && oy + PatchSize <= t.ph && ox + PatchSize <= t.pw
    ensures IsGrid(r, PatchSize, PatchSize)
  {
    seq(PatchSize, dy requires 0 <= dy < PatchSize =>
      seq(PatchSize, dx requires 0 <= dx < PatchSize => t.padded[oy + dy][ox + dx] as real / 255.0))
  }

  /** What the patch numbered `(jy, jx)` adds to the prediction map at
      `(y, x)`, or with `counting` to the count map: its output there, or 1,
      where it covers the cell, and nothing elsewhere. */
  function Contribution(t: Tiling, jy: nat, jx: nat, y: nat, x: nat, counting: bool): real
    requires ValidTiling(t) && jy < NumOrigins(t.ph) && jx < NumOrigins(t.pw)
  {
    var oy, ox := jy * Stride, jx * Stride;
    if !(Covers(oy, y) && Covers(ox, x)) then 0.0
    else if counting then 1.0
    else t.model(PatchInput(t, oy, ox))[y - oy][x - ox]
  }

  /** The contributions of the first `k` patches of row `jy`. */
  function RowSum(t: Tiling, jy: nat, k: nat, y: nat, x: nat, counting: bool): real
    requires ValidTiling(t) && jy < NumOrigins(t.ph) && k <= NumOrigins(t.pw)
  {
    if k == 0 then 0.0 else RowSum(t, jy, k - 1, y, x, counting) + Contribution(t, jy, k - 1, y, x, counting)
  }

  /** The contributions of the first `k` rows of patches. */
  function GridSum(t: Tiling, k: nat, y: nat, x: nat, counting: bool): real
    requires ValidTiling(t) && k <= NumOrigins(t.ph)
  {
    if k == 0 then 0.0 else GridSum(t, k - 1, y, x, counting) + RowSum(t, k - 1, NumOrigins(t.pw), y, x, counting)
  }

  /** `prediction_map / np.maximum(count_map, 1e-8)`, cropped to `w` x `h`. */
  function Averaged(t: Tiling, w: nat, h: nat): (r: seq<seq<real>>)
    requires ValidTiling(t) && w <= t.pw && h <= t.ph
    ensures IsGrid(r, w, h)
  {
    var ny := NumOrigins(t.ph);
    seq(h, y requires 0 <= y < h => seq(w, x requires 0 <= x < w =>
      GridSum(t, ny, y, x, false) / MaxR(GridSum(t, ny, y, x, true), 1e-8)))
  }

  /** `(final_mask > threshold).astype(np.uint8)`. */
  function ThresholdMask(p: seq<seq<real>>, threshold: real): (m: Mask)
    ensures |m| == |p| && forall y :: 0 <= y < |p| ==> |m[y]| == |p[y]|
    ensures forall y, x :: 0 <= y < |p| && 0 <= x < |p[y]| ==>
              (m[y][x] == 1 <==> p[y][x] > threshold) && (m[y][x] == 0 <==> p[y][x] <= threshold)
  {
    seq(|p|, y requires 0 <= y < |p| =>
      seq(|p[y]|, x requires 0 <= x < |p[y]| => if p[y][x] > threshold then 1 else 0))
  }

  /** An all-ones patch (`count_map[...] += 1.0`). */
  function Ones(): (r: seq<seq<real>>)
    ensures IsGrid(r, PatchSize, PatchSize)
    ensures forall y, x :: 0 <= y < PatchSize && 0 <= x < PatchSize ==> r[y][x] == 1.0
  {
    seq(PatchSize, _ => seq(PatchSize, _ => 1.0))
  }

  /** `a[oy:oy+patch, ox:ox+patch] += out`. */
  method AddPatch(a: array2<real>, oy: nat, ox: nat, out: seq<seq<real>>)
    requires oy + PatchSize <= a.Length0 && ox + PatchSize <= a.Length1
    requires IsGrid(out, PatchSize, PatchSize)
    modifies a
    ensures forall y, x :: 0 <= y < a.Length0 && 0 <= x < a.Length1 ==>
              a[y, x] == old(a[y, x]) + (if Covers(oy, y) && Covers(ox, x) then out[y - oy][x - ox] else 0.0)
  {
    for dy := 0 to PatchSize
      invariant forall y, x :: 0 <= y < a.Length0 && 0 <= x < a.Length1 ==>
                  a[y, x] == old(a[y, x]) + (if oy <= y < oy + dy && Covers(ox, x) then out[y - oy][x - ox] else 0.0)
    {
      for dx := 0 to PatchSize
        invariant forall y, x :: 0 <= y < a.Length0 && 0 <= x < a.Length1 ==>
                    a[y, x] == old(a[y, x]) + (if (oy <= y < oy + dy && Covers(ox, x)) || (y == oy + dy && ox <= x < ox + dx)
                                               then out[y - oy][x - ox] else 0.0)
      {
        a[oy + dy, ox + dx] := a[oy + dy, ox + dx] + out[dy][dx];
      }
    }
  }

  /** One step of the patch loop: the network's output at patch `(jy, jx)`
      added into the prediction map and one into the count map. */
  method AddTile(t: Tiling, prediction: array2<real>, counts: array2<real>, jy: nat, jx: nat)
    requires ValidTiling(t) && jy < NumOrigins(t.ph) && jx < NumOrigins(t.pw)
    requires prediction.Length0 == t.ph && prediction.Length1 == t.pw
    requires counts.Length0 == t.ph && counts.Length1 == t.pw
    requires prediction != counts
    modifies prediction, counts
    ensures forall y, x :: 0 <= y < t.ph && 0 <= x < t.pw ==>
              && prediction[y, x] == old(prediction[y, x]) + Contribution(t, jy, jx, y, x, false)
              && counts[y, x] == old(counts[y, x]) + Contribution(t, jy, jx, y, x, true)
  {
    var oy, ox := jy * Stride, jx * Stride;
    var out := t.model(PatchInput(t, oy, ox));
    AddPatch(prediction, oy, ox, out);
    AddPatch(counts, oy, ox, Ones());
  }

  /** The patch loop of `detect_dust`: every patch origin in row-major
      order adds the network's output into the prediction map and one into
      the count map over the patch. */
  method Accumulate(t: Tiling) returns (prediction: array2<real>, counts: array2<real>)
    requires ValidTiling(t)
    ensures fresh(prediction) && fresh(counts)
    ensures prediction.Length0 == t.ph && prediction.Length1 == t.pw
    ensures counts.Length0 == t.ph && counts.Length1 == t.pw
    ensures forall y, x :: 0 <= y < t.ph && 0 <= x < t.pw ==>
              && prediction[y, x] == GridSum(t, NumOrigins(t.ph), y, x, false)
              && counts[y, x] == GridSum(t, NumOrigins(t.ph), y, x, true)
  {
    prediction := new real[t.ph, t.pw]((_, _) => 0.0);
    counts := new real[t.ph, t.pw]((_, _) => 0.0);
    var ny, nx := NumOrigins(t.ph), NumOrigins(t.pw);
    for jy := 0 to ny
      invariant forall y, x :: 0 <= y < t.ph && 0 <= x < t.pw ==>
                  prediction[y, x] == GridSum(t, jy, y, x, false) && counts[y, x] == GridSum(t, jy, y, x, true)
    {
      for jx := 0 to nx
        invariant forall y, x :: 0 <= y < t.ph && 0 <= x < t.pw ==>
                    && prediction[y, x] == GridSum(t, jy, y, x, false) + RowSum(t, jy, jx, y, x, false)
                    && counts[y, x] == GridSum(t, jy, y, x, true) + RowSum(t, jy, jx, y, x, true)
      {
        AddTile(t, prediction, counts, jy, jx);
      }
    }
  }

  /** `detect_dust`: pad the image, accumulate the patches, average where
      they overlap, crop back to the image and threshold. */
  method DetectDust(image: Mask, w: nat, h: nat, model: Model, threshold: real)
      returns (finalMask: seq<seq<real>>, binaryMask: Mask)
    requires IsMask(image, w, h) && w > 0 && h > 0 && PatchShaped(model)
    ensures var pw, ph := w + PadAmount(w), h + PadAmount(h);
            finalMask == Averaged(Tiling(Padded(image, w, h, pw, ph), pw, ph, model), w, h)
    ensures binaryMask == ThresholdMask(finalMask, threshold)
  {
    var pw, ph := w + PadAmount(w), h + PadAmount(h);
    var t := Tiling(Padded(image, w, h, pw, ph), pw, ph, model);
    var prediction, counts := Accumulate(t);
    finalMask := seq(h, y requires 0 <= y < h reads prediction, counts =>
      seq(w, x requires 0 <= x < w reads prediction, counts => prediction[y, x] / MaxR(counts[y, x], 1e-8)));
    var spec := Averaged(t, w, h);
    forall y | 0 <= y < h ensures finalMask[y] == spec[y] {
      assert forall x :: 0 <= x < w ==> finalMask[y][x] == spec[y][x];
    }
    binaryMask := ThresholdMask(finalMask, threshold);
  }

  // ---------------------------------------------------------------------
  // What the averaging computes

  /** A row of patches counts a cell once per patch of the row covering its
      column, if the row covers its line at all. */
  lemma {:induction false} RowCountIsCoverage(t: Tiling, jy: nat, k: nat, y: nat, x: nat)
    requires ValidTiling(t) && jy < NumOrigins(t.ph) && k <= NumOrigins(t.pw)
    ensures RowSum(t, jy, k, y, x, true) == if Covers(jy * Stride, y) then AxisCover(k, x) as real else 0.0
  {
    if k > 0 {
      RowCountIsCoverage(t, jy, k - 1, y, x);
    }
  }

  /** `count_map[y][x]` is the number of patches covering `(y, x)`: the
      patches covering line `y` times those covering column `x`. */
  lemma {:induction false} CountIsCoverage(t: Tiling, k: nat, y: nat, x: nat)
    requires ValidTiling(t) && k <= NumOrigins(t.ph)
    ensures GridSum(t, k, y, x, true) == (AxisCover(k, y) * AxisCover(NumOrigins(t.pw), x)) as real
  {
    if k > 0 {
      CountIsCoverage(t, k - 1, y, x);
      RowCountIsCoverage(t, k - 1, NumOrigins(t.pw), y, x);
    }
  }

  /** On a padded image at least one patch in each direction, every cell is
      covered by one, two or four patches, so the `1e-8` floor never applies
      and each cell is the plain mean of the outputs covering it. */
  lemma CoveredCellsAreAveraged(t: Tiling, w: nat, h: nat, y: nat, x: nat)
    requires ValidTiling(t) && w <= t.pw && h <= t.ph && y < h && x < w
    requires t.pw % Stride == 0 && t.ph % Stride == 0 && t.pw >= PatchSize && t.ph >= PatchSize
    ensures var c := GridSum(t, NumOrigins(t.ph), y, x, true);
            && (c == 1.0 || c == 2.0 || c == 4.0)
            && Averaged(t, w, h)[y][x] == GridSum(t, NumOrigins(t.ph), y, x, false) / c
  {
    CountIsCoverage(t, NumOrigins(t.ph), y, x);
    AxisCoverOneOrTwo(t.ph, y);
    AxisCoverOneOrTwo(t.pw, x);
  }

  /** With probabilities out of the network, a row's prediction sum lies
      between zero and its count. */
  lemma {:induction false} RowSumBounded(t: Tiling, jy: nat, k: nat, y: nat, x: nat)
    requires ValidTiling(t) && OutputsProbabilities(t.model) && jy < NumOrigins(t.ph) && k <= NumOrigins(t.pw)
    ensures 0.0 <= RowSum(t, jy, k, y, x, false) <= RowSum(t, jy, k, y, x, true)
  {
    if k > 0 {
      RowSumBounded(t, jy, k - 1, y, x);
      var oy, ox := jy * Stride, (k - 1) * Stride;
      if Covers(oy, y) && Covers(ox, x) {
        var out := t.model(PatchInput(t, oy, ox));
        assert 0.0 <= out[y - oy][x - ox] <= 1.0;
      }
    }
  }

  lemma {:induction false} GridSumBounded(t: Tiling, k: nat, y: nat, x: nat)
    requires ValidTiling(t) && OutputsProbabilities(t.model) && k <= NumOrigins(t.ph)
    ensures 0.0 <= GridSum(t, k, y, x, false) <= GridSum(t, k, y, x, true)
  {
    if k > 0 {
      GridSumBounded(t, k - 1, y, x);
      RowSumBounded(t, k - 1, NumOrigins(t.pw), y, x);
    }
  }

  /** A sum of probabilities divided by its whole count (or by the floor
      when there is nothing to count) is a probability. */
  lemma MeanIsProbability(p: real, c: real)
    requires 0.0 <= p <= c && (c == 0.0 || c >= 1.0)
    ensures 0.0 <= p / MaxR(c, 1e-8) <= 1.0
  {
    var d := MaxR(c, 1e-8);
    var q := p / d;
    assert q * d == p;
    if c != 0.0 {
      if q < 0.0 {
        RealPosProduct(-q, d);
      }
      if q > 1.0 {
        RealPosProduct(q - 1.0, d);
      }
    }
  }

  /** With probabilities out of the network, the averaged mask is a
      probability at every cell. */
  lemma AverageIsProbability(t: Tiling, w: nat, h: nat, y: nat, x: nat)
    requires ValidTiling(t) && OutputsProbabilities(t.model) && w <= t.pw && h <= t.ph && y < h && x < w
    ensures 0.0 <= Averaged(t, w, h)[y][x] <= 1.0
  {
    var ny := NumOrigins(t.ph);
    GridSumBounded(t, ny, y, x);
    CountIsCoverage(t, ny, y, x);
    var n: nat := AxisCover(ny, y) * AxisCover(NumOrigins(t.pw), x);
    MeanIsProbability(GridSum(t, ny, y, x, false), n as real);
  }

  /** A row with no patches adds nothing. */
  lemma {:induction false} NarrowRowIsZero(t: Tiling, jy: nat, k: nat, y: nat, x: nat, counting: bool)
    requires ValidTiling(t) && jy < NumOrigins(t.ph) && k <= NumOrigins(t.pw) && t.pw < PatchSize
    ensures RowSum(t, jy, k, y, x, counting) == 0.0
  {
  }

  lemma {:induction false} NarrowGridIsZero(t: Tiling, k: nat, y: nat, x: nat, counting: bool)
    requires ValidTiling(t) && k <= NumOrigins(t.ph) && t.pw < PatchSize
    ensures GridSum(t, k, y, x, counting) == 0.0
  {
    if k > 0 {
      NarrowGridIsZero(t, k - 1, y, x, counting);
      NarrowRowIsZero(t, k - 1, NumOrigins(t.pw), y, x, counting);
    }
  }

  /** An image of at most one stride in either direction pads to a single
      stride, less than one patch, so no patch is run, every averaged cell
      is 0 and (for a non-negative threshold) nothing is detected. */
  lemma SmallImageDetectsNothing(image: Mask, w: nat, h: nat, model: Model, threshold: real)
    requires IsMask(image, w, h) && w > 0 && h > 0 && PatchShaped(model)
    requires w <= Stride || h <= Stride
    requires threshold >= 0.0
    ensures var pw, ph := w + PadAmount(w), h + PadAmount(h);
            var a := Averaged(Tiling(Padded(image, w, h, pw, ph), pw, ph, model), w, h);
            (forall y, x :: 0 <= y < h && 0 <= x < w ==> a[y][x] == 0.0)
            && (forall y, x :: 0 <= y < h && 0 <= x < w ==> ThresholdMask(a, threshold)[y][x] == 0)
  {
    var pw, ph := w + PadAmount(w), h + PadAmount(h);
    var t := Tiling(Padded(image, w, h, pw, ph), pw, ph, model);
    PadToStride(w);
    PadToStride(h);
    DivBracket(w + Stride - 1, Stride);
    DivBracket(h + Stride - 1, Stride);
    var a := Averaged(t, w, h);
    forall y, x | 0 <= y < h && 0 <= x < w ensures a[y][x] == 0.0 {
      if h <= Stride {
        assert ph == Stride;
        assert NumOrigins(ph) == 0;
      } else {
        assert pw == Stride;
        NarrowGridIsZero(t, NumOrigins(ph), y, x, false);
      }
    }
  }

  /** An image more than one stride in each direction pads to at least one
      patch, so every cell of it is covered and averaged. */
  lemma LargeImageIsCovered(image: Mask, w: nat, h: nat, model: Model, y: nat, x: nat)
    requires IsMask(image, w, h) && Stride < w && Stride < h && PatchShaped(model) && y < h && x < w
    ensures var pw, ph := w + PadAmount(w), h + PadAmount(h);
            var t := Tiling(Padded(image, w, h, pw, ph), pw, ph, model);
            var c := GridSum(t, NumOrigins(ph), y, x, true);
            && (c == 1.0 || c == 2.0 || c == 4.0)
            && Averaged(t, w, h)[y][x] == GridSum(t, NumOrigins(ph), y, x, false) / c
  {
    var pw, ph := w + PadAmount(w), h + PadAmount(h);
    PadToStride(w);
    PadToStride(h);
    DivBracket(w + Stride - 1, Stride);
    DivBracket(h + Stride - 1, Stride);
    DivBracket(pw, Stride);
    DivBracket(ph, Stride);
    CoveredCellsAreAveraged(Tiling(Padded(image, w, h, pw, ph), pw, ph, model), w, h, y, x);
  }

  // ---------------------------------------------------------------------
  // The inpainting mask

  /** Every cell is 0 or 1 (the thresholded mask, before scaling). */
  predicate IsZeroOne(m: Mask) {
    forall y, x :: 0 <= y < |m| && 0 <= x < |m[y]| ==> m[y][x] == 0 || m[y][x] == 1
  }

  /** `binary_mask * 255` on a 0/1 mask. */
  function Scale255(m: Mask, w: nat, h: nat): (r: Mask)
    requires IsGrid(m, w, h) && IsZeroOne(m)
    ensures IsMask(r, w, h) && IsBinary(r)
    ensures forall y, x :: 0 <= y < h && 0 <= x < w ==> (r[y][x] == 255 <==> m[y][x] == 1)
  {
    seq(h, y requires 0 <= y < h => seq(w, x requires 0 <= x < w => m[y][x] * 255))
  }

  /** `inpaint_image`'s mask: the detection mask, nearest-resized to the
      image when its size differs, scaled to 0/255 and dilated with the 5x5
      elliptical kernel. */
  function InpaintMask(binary: Mask, w: nat, h: nat): (r: Mask)
    requires NonEmpty(binary) && IsZeroOne(binary)
    ensures IsMask(r, w, h) && IsBinary(r)
  {
    var bw, bh := Width(binary), Height(binary);
    var m := if bw != w || bh != h then NearestResize(Cv2, binary, bw, bh, w, h) else binary;
    ResizeKeepsZeroOne(binary, bw, bh, w, h);
    var s := Scale255(m, w, h);
    DilateProperties(s, w, h);
    Dilate(s, w, h)
  }

  /** A nearest resize copies cells, so a 0/1 mask stays 0/1. */
  lemma ResizeKeepsZeroOne(m: Mask, w: nat, h: nat, nw: nat, nh: nat)
    requires IsGrid(m, w, h) && w > 0 && h > 0 && IsZeroOne(m)
    ensures IsZeroOne(NearestResize(Cv2, m, w, h, nw, nh))
  {
    var r := NearestResize(Cv2, m, w, h, nw, nh);
    forall y, x | 0 <= y < |r| && 0 <= x < |r[y]| ensures r[y][x] == 0 || r[y][x] == 1 {
      ResizeCopiesSourcePixels(Cv2, m, w, h, nw, nh, y, x);
    }
  }

  /** When the detection mask has the image's size, the inpainting mask
      keeps every detected cell and every cell within the kernel of one. */
  lemma InpaintMaskCoversDetections(binary: Mask, w: nat, h: nat)
    requires NonEmpty(binary) && IsZeroOne(binary) && Width(binary) == w && Height(binary) == h
    ensures forall y, x :: 0 <= y < h && 0 <= x < w && binary[y][x] == 1 ==> InpaintMask(binary, w, h)[y][x] == 255
    ensures forall y, x, dy, dx :: 0 <= y < h && 0 <= x < w && InKernel(dy, dx)
              && 0 <= y + dy < h && 0 <= x + dx < w && binary[y + dy][x + dx] == 1
              ==> InpaintMask(binary, w, h)[y][x] == 255
  {
    var s := Scale255(binary, w, h);
    DilateProperties(s, w, h);
  }

  // ---------------------------------------------------------------------
  // The output file name

  /** The index of the last `c` in `s`, or -1 (`str.rfind`). */
  function LastIndexOf(s: string, c: char): (r: int)
    ensures -1 <= r < |s|
    ensures r >= 0 ==> s[r] == c
    ensures forall k :: r < k < |s| ==> s[k] != c
  {
    if |s| == 0 then -1
    else if s[|s| - 1] == c then |s| - 1
    else LastIndexOf(s[..|s| - 1], c)
  }

  /** The last occurrence is determined by its two defining properties. */
  lemma {:induction false} LastIndexOfUnique(s: string, c: char, r: int)
    requires -1 <= r < |s| && (r >= 0 ==> s[r] == c)
    requires forall k :: r < k < |s| ==> s[k] != c
    ensures LastIndexOf(s, c) == r
  {
    if |s| > 0 && s[|s| - 1] != c {
      LastIndexOfUnique(s[..|s| - 1], c, r);
    }
  }

  /** `Path(p).parent` with its separator, and `Path(p).name`. */
  function ParentPart(p: string): string { p[..LastIndexOf(p, '/') + 1] }

  function NamePart(p: string): (r: string)
    ensures ParentPart(p) + r == p
  {
    var i := LastIndexOf(p, '/');
    SplitAt(p, i + 1);
    p[i + 1..]
  }

  lemma SplitAt(s: string, j: nat)
    requires j <= |s|
    ensures s[..j] + s[j..] == s
  {
  }

  /** `c` does not occur in `s`. */
  predicate Lacks(s: string, c: char) { forall k :: 0 <= k < |s| ==> s[k] != c }

  /** The name holds no separator. */
  lemma NamePartHasNoSeparator(p: string)
    ensures Lacks(NamePart(p), '/')
  {
    var i := LastIndexOf(p, '/');
    forall k | 0 <= k < |NamePart(p)| ensures NamePart(p)[k] != '/' {
      assert NamePart(p)[k] == p[i + 1 + k];
    }
  }

  /** Where pathlib's suffix starts: at the name's last dot, unless that dot
      is its first or its last character, in which case there is none. */
  function SuffixStart(name: string): (r: nat)
    ensures r <= |name|
  {
    var i := LastIndexOf(name, '.');
    if 0 < i < |name| - 1 then i else |name|
  }

  function Stem(name: string): string { name[..SuffixStart(name)] }

  function Suffix(name: string): string { name[SuffixStart(name)..] }

  /** `f"{path.stem}_dust_removal{path.suffix}"`. */
  function OutputName(name: string): string { Stem(name) + "_dust_removal" + Suffix(name) }

  /** `path.parent / new_name`: the path grows by exactly the inserted
      `_dust_removal`. */
  function OutputPath(p: string): (r: string)
    ensures |r| == |p| + |"_dust_removal"|
    ensures r[..|ParentPart(p)|] == ParentPart(p)
  {
    ParentPart(p) + OutputName(NamePart(p))
  }

  /** The new name adds no character the name lacks, other than those of
      `_dust_removal`. */
  lemma OutputNameLacks(name: string, c: char)
    requires Lacks(name, c) && Lacks("_dust_removal", c)
    ensures Lacks(OutputName(name), c)
  {
    var stem, suffix := Stem(name), Suffix(name);
    assert Lacks(stem, c) by {
      forall k | 0 <= k < |stem| ensures stem[k] != c {
        assert stem[k] == name[k];
      }
    }
    assert Lacks(suffix, c) by {
      forall k | 0 <= k < |suffix| ensures suffix[k] != c {
        assert suffix[k] == name[SuffixStart(name) + k];
      }
    }
    ConcatLacks(stem, "_dust_removal", c);
    ConcatLacks(stem + "_dust_removal", suffix, c);
  }

  lemma ConcatLacks(a: string, b: string, c: char)
    requires Lacks(a, c) && Lacks(b, c)
    ensures Lacks(a + b, c)
  {
    forall k | 0 <= k < |a + b| ensures (a + b)[k] != c {
      if k >= |a| {
        assert (a + b)[k] == b[k - |a|];
      }
    }
  }

  /** The result lands in the input's directory, under the new name. */
  lemma OutputPathKeepsDirectory(p: string)
    ensures ParentPart(OutputPath(p)) == ParentPart(p)
    ensures NamePart(OutputPath(p)) == OutputName(NamePart(p))
  {
    var parent, name := ParentPart(p), NamePart(p);
    var i := LastIndexOf(p, '/');
    NamePartHasNoSeparator(p);
    OutputNameLacks(name, '/');
    var out := OutputName(name);
    var o := parent + out;
    assert |parent| == i + 1;
    assert i >= 0 ==> o[i] == '/';
    forall k | i < k < |o| ensures o[k] != '/' {
      assert o[k] == out[k - i - 1];
    }
    LastIndexOfUnique(o, '/', i);
    assert o[..i + 1] == parent;
    assert o[i + 1..] == out;
  }

  /** A name with an extension keeps it, and its stem gains the suffix. */
  lemma OutputNameKeepsSuffix(name: string)
    requires Suffix(name) != ""
    ensures Suffix(OutputName(name)) == Suffix(name)
    ensures Stem(OutputName(name)) == Stem(name) + "_dust_removal"
  {
    var i := LastIndexOf(name, '.');
    var out := OutputName(name);
    var j := i + 13;
    assert '.' !in "_dust_removal";
    assert out[j] == '.';
    forall k | j < k < |out| ensures out[k] != '.' {
      assert out[k] == name[k - 13];
    }
    LastIndexOfUnique(out, '.', j);
    assert out[..j] == Stem(name) + "_dust_removal";
  }

  /** Cutting a name into stem and suffix loses nothing. */
  lemma StemSuffixRoundTrip(name: string)
    ensures Stem(name) + Suffix(name) == name
  {
  }

  // ---------------------------------------------------------------------
  // Accepted files

  /** `str.lower` on ASCII letters. */
  function LowerChar(c: char): char {
    if 'A' <= c <= 'Z' then (c as int + 32) as char else c
  }

  function Lower(s: string): (r: string)
    ensures |r| == |s| && forall i :: 0 <= i < |s| ==> r[i] == LowerChar(s[i])
  {
    seq(|s|, i requires 0 <= i < |s| => LowerChar(s[i]))
  }

  predicate EndsWith(s: string, suffix: string) {
    |suffix| <= |s| && s[|s| - |suffix|..] == suffix
  }

  const ImageExtensions: seq<string> := [".jpg", ".jpeg", ".png", ".tiff", ".bmp"]

  /** `on_image_drop`'s test: the lower-cased name ends in an image extension. */
  predicate AcceptsImage(p: string)
    ensures AcceptsImage(p) ==> |p| >= 4
  {
    exists i :: 0 <= i < |ImageExtensions| && EndsWith(Lower(p), ImageExtensions[i])
  }

  /** `on_weights_drop`'s test. */
  predicate AcceptsWeights(p: string)
    ensures AcceptsWeights(p) ==> |p| >= 4
  {
    EndsWith(Lower(p), ".pth")
  }

  /** Lower-casing twice is lower-casing once, so the tests ignore case. */
  lemma AcceptsIgnoresCase(p: string)
    ensures AcceptsImage(Lower(p)) == AcceptsImage(p)
    ensures AcceptsWeights(Lower(p)) == AcceptsWeights(p)
  {
    assert Lower(Lower(p)) == Lower(p);
  }

  /** Each image extension is a dot followed by at least three letters. */
  lemma ExtensionShape(e: nat)
    requires e < |ImageExtensions|
    ensures var ext := ImageExtensions[e];
            |ext| >= 4 && ext[0] == '.' && forall k :: 0 < k < |ext| ==> ext[k] != '.'
  {
  }

  /** Lower-casing maps a dot, and only a dot, to a dot. */
  lemma LowerCharDot(c: char)
    ensures LowerChar(c) == '.' <==> c == '.'
  {
  }

  /** A lower-cased ending at least as long as the name part is the name's. */
  lemma NameEndsWith(p: string, ext: string)
    requires EndsWith(Lower(p), ext) && |NamePart(p)| >= |ext|
    ensures EndsWith(Lower(NamePart(p)), ext)
  {
    var i := LastIndexOf(p, '/');
    LowerDrop(p, i + 1);
    EndsWithDrop(Lower(p), i + 1, ext);
  }

  /** An ending that fits in what is left after dropping a prefix is still
      an ending. */
  lemma EndsWithDrop(s: string, a: nat, ext: string)
    requires a <= |s| && |ext| <= |s| - a && EndsWith(s, ext)
    ensures EndsWith(s[a..], ext)
  {
    assert s[a..][|s| - a - |ext|..] == s[|s| - |ext|..];
  }

  /** Lower-casing commutes with dropping a prefix. */
  lemma LowerDrop(s: string, a: nat)
    requires a <= |s|
    ensures Lower(s[a..]) == Lower(s)[a..]
  {
    assert forall k :: 0 <= k < |s| - a ==> Lower(s[a..])[k] == Lower(s)[a..][k];
  }

  /** A name longer than the image extension it ends in has that ending as
      its suffix. */
  lemma SuffixIsExtension(name: string, e: nat)
    requires e < |ImageExtensions| && EndsWith(Lower(name), ImageExtensions[e])
    requires |name| > |ImageExtensions[e]|
    ensures Suffix(name) == name[|name| - |ImageExtensions[e]|..]
    ensures Lower(Suffix(name)) == ImageExtensions[e]
  {
    var ext := ImageExtensions[e];
    var n, m := |name|, |ext|;
    var start := n - m;
    ExtensionShape(e);
    assert forall k :: 0 <= k < m ==> LowerChar(name[start + k]) == ext[k] by {
      forall k | 0 <= k < m ensures LowerChar(name[start + k]) == ext[k] {
        assert Lower(name)[start..][k] == ext[k];
      }
    }
    LowerCharDot(name[start]);
    forall k | start < k < n ensures name[k] != '.' {
      LowerCharDot(name[k]);
      assert LowerChar(name[start + (k - start)]) == ext[k - start];
    }
    LastIndexOfUnique(name, '.', start);
    assert SuffixStart(name) == start;
    assert Lower(name[start..]) == ext by {
      forall k | 0 <= k < m ensures Lower(name[start..])[k] == ext[k] {
        assert name[start..][k] == name[start + k];
      }
    }
  }

  /** An accepted image whose name is more than its extension keeps that
      extension, in its own case, as its suffix, and so does its result. */
  lemma AcceptedImageKeepsExtension(p: string, e: nat)
    requires e < |ImageExtensions| && EndsWith(Lower(p), ImageExtensions[e])
    requires |NamePart(p)| > |ImageExtensions[e]|
    ensures Lower(Suffix(NamePart(p))) == ImageExtensions[e]
    ensures Suffix(NamePart(OutputPath(p))) == Suffix(NamePart(p))
  {
    NameEndsWith(p, ImageExtensions[e]);
    SuffixIsExtension(NamePart(p), e);
    ExtensionShape(e);
    OutputPathKeepsDirectory(p);
    OutputNameKeepsSuffix(NamePart(p));
  }

  // ---------------------------------------------------------------------
  // The window

  /** A Python truth test on an optional path: set and not empty. */
  predicate IsSet(p: Option<string>) { p.Some? && p.value != "" }

  /** `update_process_button`'s condition. */
  predicate ProcessReady(image: Option<string>, weights: Option<string>) { IsSet(image) && IsSet(weights) }

  const DefaultThreshold: real := 0.005
  const MinThreshold: real := 0.001
  const MaxThreshold: real := 0.05

  /** An accepted file name is never empty, so a dropped file always counts
      as set. */
  lemma AcceptedPathsAreSet(p: string)
    ensures AcceptsImage(p) ==> IsSet(Some(p))
    ensures AcceptsWeights(p) ==> IsSet(Some(p))
  {
  }

  /** The window's model of the two chosen files and the process button. */
  class DustRemovalApp {
    var imagePath: Option<string>
    var weightsPath: Option<string>
    var processEnabled: bool
    var threshold: real

    /** The button is enabled exactly when both files are set, and the
        threshold is one the slider can produce. */
    predicate Valid()
      reads this
    {
      processEnabled == ProcessReady(imagePath, weightsPath) && MinThreshold <= threshold <= MaxThreshold
    }

    constructor ()
      ensures Valid() && imagePath == None && weightsPath == None && !processEnabled
      ensures threshold == DefaultThreshold
    {
      imagePath, weightsPath, processEnabled := None, None, false;
      threshold := DefaultThreshold;
    }

    /** `update_process_button`. */
    method UpdateProcessButton()
      requires MinThreshold <= threshold <= MaxThreshold
      modifies this`processEnabled
      ensures Valid()
    {
      processEnabled := imagePath.Some? && imagePath.value != "" && weightsPath.Some? && weightsPath.value != "";
    }

    /** `set_image_path`. */
    method SetImagePath(path: string)
      requires Valid()
      modifies this`imagePath, this`processEnabled
      ensures Valid() && imagePath == Some(path)
    {
      imagePath := Some(path);
      UpdateProcessButton();
    }

    /** `set_weights_path`, with the outcome of `load_model` as a parameter:
        `None` when the weights load, else the error's text. A failed load
        clears the weights path again. */
    method SetWeightsPath(path: string, loadError: Option<string>) returns (error: Option<string>)
      requires Valid()
      modifies this`weightsPath, this`processEnabled
      ensures Valid()
      ensures weightsPath == if loadError.None? then Some(path) else None
      ensures error == if loadError.None? then None else Some("Failed to load model: " + loadError.value)
    {
      weightsPath := Some(path);
      UpdateProcessButton();
      error := None;
      if loadError.Some? {
        error := Some("Failed to load model: " + loadError.value);
        weightsPath := None;
        UpdateProcessButton();
      }
    }

    /** `on_image_drop`: the first dropped file is taken if it is an image,
        otherwise an error is shown; an empty drop does nothing. */
    method OnImageDrop(files: seq<string>) returns (error: Option<string>)
      requires Valid()
      modifies this`imagePath, this`processEnabled
      ensures Valid()
      ensures |files| > 0 && AcceptsImage(files[0]) ==> imagePath == Some(files[0]) && error.None?
      ensures !(|files| > 0 && AcceptsImage(files[0])) ==> imagePath == old(imagePath)
      ensures |files| > 0 && !AcceptsImage(files[0]) ==>
                error == Some("Please drop a valid image file (.jpg, .jpeg, .png)")
      ensures |files| == 0 ==> error.None?
    {
      error := None;
      if |files| > 0 {
        if AcceptsImage(files[0]) {
          SetImagePath(files[0]);
        } else {
          error := Some("Please drop a valid image file (.jpg, .jpeg, .png)");
        }
      }
    }

    /** `on_weights_drop`: as for images, with the `.pth` test and the
        model load. */
    method OnWeightsDrop(files: seq<string>, loadError: Option<string>) returns (error: Option<string>)
      requires Valid()
      modifies this`weightsPath, this`processEnabled
      ensures Valid()
      ensures |files| > 0 && AcceptsWeights(files[0]) ==>
                && weightsPath == (if loadError.None? then Some(files[0]) else None)
                && error == (if loadError.None? then None else Some("Failed to load model: " + loadError.value))
      ensures !(|files| > 0 && AcceptsWeights(files[0])) ==> weightsPath == old(weightsPath)
      ensures |files| > 0 && !AcceptsWeights(files[0]) ==> error == Some("Please drop a valid weights file (.pth)")
      ensures |files| == 0 ==> error.None?
    {
      error := None;
      if |files| > 0 {
        if AcceptsWeights(files[0]) {
          error := SetWeightsPath(files[0], loadError);
        } else {
          error := Some("Please drop a valid weights file (.pth)");
        }
      }
    }

    /** `browse_image`: the dialog's choice, unchecked, unless cancelled
        (an empty string). */
    method BrowseImage(chosen: string)
      requires Valid()
      modifies this`imagePath, this`processEnabled
      ensures Valid()
      ensures imagePath == if chosen != "" then Some(chosen) else old(imagePath)
    {
      if chosen != "" {
        SetImagePath(chosen);
      }
    }

    /** `browse_weights`. */
    method BrowseWeights(chosen: string, loadError: Option<string>) returns (error: Option<string>)
      requires Valid()
      modifies this`weightsPath, this`processEnabled
      ensures Valid()
      ensures chosen == "" ==> weightsPath == old(weightsPath) && error.None?
      ensures chosen != "" ==>
                && weightsPath == (if loadError.None? then Some(chosen) else None)
                && error == (if loadError.None? then None else Some("Failed to load model: " + loadError.value))
    {
      error := None;
      if chosen != "" {
        error := SetWeightsPath(chosen, loadError);
      }
    }

    /** `process_image`'s guard: processing starts only when both files are
        set, which is exactly when the button is enabled. */
    method CanProcess() returns (r: bool)
      requires Valid()
      ensures r == ProcessReady(imagePath, weightsPath) && r == processEnabled
    {
      r := imagePath.Some? && imagePath.value != "" && weightsPath.Some? && weightsPath.value != "";
    }
  }
}
