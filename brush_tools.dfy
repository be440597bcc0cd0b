/** `BrushTools`: painting a filled disc of 255 (add dust) or 0 (erase) into
    a mask, and a stroke that stamps the disc at evenly spaced points between
    two positions. */
module BrushTools {
  import opened Common
  import opened Grids
  import opened ImageProcessingService

  /** Pixel (x, y) is inside the disc of the given radius around (cx, cy). */
  predicate InDisc(x: int, y: int, cx: int, cy: int, radius: int) {
    (x - cx) * (x - cx) + (y - cy) * (y - cy) <= radius * radius
  }

  /** The value a brush writes: black to erase, white to add dust. */
  function PaintValue(isErasing: bool): int { if isErasing then 0 else 255 }

  /** The pixel `(int(c.x), int(c.y))` lies inside a `w` x `h` mask. */
  predicate HitsMask(w: nat, h: nat, c: Vec) {
    0 <= Trunc(c.x) < w && 0 <= Trunc(c.y) < h
  }

  /** The pixel a brush centred at `c` writes, if any. */
  predicate Painted(w: nat, h: nat, c: Vec, radius: int, y: int, x: int) {
    HitsMask(w, h, c) && InDisc(x, y, Trunc(c.x), Trunc(c.y), radius)
  }

  /** The mask after one brush application: when the truncated centre is
      outside the mask nothing changes; otherwise every pixel of the disc
      takes the paint value and every other pixel keeps its value. */
  function Stamp(m: Mask, w: nat, h: nat, c: Vec, radius: int, isErasing: bool): (r: Mask)
    requires IsGrid(m, w, h)
    ensures IsGrid(r, w, h)
    ensures !HitsMask(w, h, c) ==> r == m
    ensures forall y, x :: 0 <= y < h && 0 <= x < w ==>
              r[y][x] == if Painted(w, h, c, radius, y, x) then PaintValue(isErasing) else m[y][x]
  {
    if !HitsMask(w, h, c) then m
    else
      seq(h, y requires 0 <= y < h =>
        seq(w, x requires 0 <= x < w =>
          if InDisc(x, y, Trunc(c.x), Trunc(c.y), radius) then PaintValue(isErasing) else m[y][x]))
  }

  /** `apply_circular_brush`: copies the mask into a buffer, writes the disc
      in place and returns the buffer's contents. */
  method ApplyCircularBrush(mask: Mask, w: nat, h: nat, center: Vec, radius: int, isErasing: bool)
    returns (r: Mask)
    requires IsGrid(mask, w, h)
    ensures r == Stamp(mask, w, h, center, radius, isErasing)
  {
    var cx, cy := Trunc(center.x), Trunc(center.y);
    if cx < 0 || cx >= w || cy < 0 || cy >= h {
      return mask;
    }
    var buf := new int[h, w]((y: int, x: int) requires 0 <= y < h && 0 <= x < w => mask[y][x]);
    var v := PaintValue(isErasing);
    for y := 0 to h
      invariant forall j, i :: 0 <= j < h && 0 <= i < w ==>
                  buf[j, i] == if j < y && InDisc(i, j, cx, cy, radius) then v else mask[j][i]
    {
      for x := 0 to w
        invariant forall j, i :: 0 <= j < h && 0 <= i < w ==>
                    buf[j, i] == if (j < y || (j == y && i < x)) && InDisc(i, j, cx, cy, radius) then v else mask[j][i]
      {
        if InDisc(x, y, cx, cy, radius) {
          buf[y, x] := v;
        }
      }
    }
    r := seq(h, y requires 0 <= y < h reads buf => seq(w, x requires 0 <= x < w reads buf => buf[y, x]));
    ghost var s := Stamp(mask, w, h, center, radius, isErasing);
    assert forall y :: 0 <= y < h ==> r[y] == s[y];
  }

  /** Stamping twice with the same brush is stamping once. */
  lemma StampIdempotent(m: Mask, w: nat, h: nat, c: Vec, radius: int, isErasing: bool)
    requires IsGrid(m, w, h)
    ensures Stamp(Stamp(m, w, h, c, radius, isErasing), w, h, c, radius, isErasing)
            == Stamp(m, w, h, c, radius, isErasing)
  {
    var once := Stamp(m, w, h, c, radius, isErasing);
    var twice := Stamp(once, w, h, c, radius, isErasing);
    assert forall y :: 0 <= y < h ==> twice[y] == once[y];
  }

  /** A brush preserves the pixelwise order between two masks. */
  lemma StampMonotone(a: Mask, b: Mask, w: nat, h: nat, c: Vec, radius: int, isErasing: bool)
    requires IsGrid(a, w, h) && IsGrid(b, w, h) && Dominates(a, b, w, h)
    ensures Dominates(Stamp(a, w, h, c, radius, isErasing), Stamp(b, w, h, c, radius, isErasing), w, h)
  {
  }

  /** On an 8-bit mask, adding only raises pixels and erasing only lowers
      them; the result is still an 8-bit mask, and 0/255 if the input was. */
  lemma StampDirection(m: Mask, w: nat, h: nat, c: Vec, radius: int, isErasing: bool)
    requires IsMask(m, w, h)
    ensures var r := Stamp(m, w, h, c, radius, isErasing);
            && IsMask(r, w, h)
            && (IsBinary(m) ==> IsBinary(r))
            && (!isErasing ==> Dominates(r, m, w, h))
            && (isErasing ==> Dominates(m, r, w, h))
  {
  }

  // ---------------------------------------------------------------------
  // Strokes

  function Sq(v: real): (r: real)
    ensures r >= 0.0
  {
    v * v
  }

  /** Squaring is monotone on non-negative reals. */
  lemma SqMono(a: real, b: real)
    requires 0.0 <= a <= b
    ensures Sq(a) <= Sq(b)
  {
    assert Sq(b) - Sq(a) == (b - a) * (b + a);
    RealNonNegProduct(b - a, b + a);
  }

  /** (a * sp)^2 <= (b * sp)^2 for step counts a <= b. */
  lemma ReachMono(a: nat, b: nat, sp: real)
    requires a <= b && sp >= 1.0
    ensures Sq(a as real * sp) <= Sq(b as real * sp)
  {
    RealMulMono(sp, a as real, b as real);
    RealNonNegProduct(a as real, sp);
    SqMono(a as real * sp, b as real * sp);
  }

  /** With a spacing of at least 1, k <= (k * spacing)^2. */
  lemma SqBelow(k: nat, sp: real)
    requires sp >= 1.0
    ensures k as real <= Sq(k as real * sp)
  {
    var kr := k as real;
    if k > 0 {
      RealMulMono(kr, 1.0, sp);
      var q := kr * sp;
      assert q >= kr >= 1.0;
      RealMulMono(q, 1.0, q);
      assert Sq(q) == q * q >= q;
    }
  }

  lemma FloorAtLeast(n: nat, d: real)
    requires n as real <= d
    ensures n <= d.Floor
  {
  }

  /** How far k steps of spacing sp reach, squared. */
  function Reach(k: nat, sp: real): real {
    Sq(k as real * sp)
  }

  /** The largest k >= n with k * sp <= sqrt(d2), searched upwards from n. */
  function CountFrom(d2: real, sp: real, n: nat): (k: nat)
    requires sp >= 1.0 && Reach(n, sp) <= d2
    ensures n <= k
    ensures Reach(k, sp) <= d2 < Reach(k + 1, sp)
    decreases d2.Floor - n
  {
    if Reach(n + 1, sp) <= d2 then
      SqBelow(n + 1, sp);
      FloorAtLeast(n + 1, d2);
      CountFrom(d2, sp, n + 1)
    else
      n
  }

  /** `int(distance / spacing)` for `distance = sqrt(d2)`: the k with
      k * spacing <= distance < (k + 1) * spacing, stated on squares. */
  function StepCount(d2: real, sp: real): (k: nat)
    requires sp >= 1.0 && d2 >= 0.0
    ensures Sq(k as real * sp) <= d2 < Sq((k + 1) as real * sp)
  {
    assert Sq(0 as real * sp) == 0.0;
    CountFrom(d2, sp, 0)
  }

  /** The bracket determines the step count: StepCount is exactly the floor
      of distance / spacing. */
  lemma {:induction false} StepCountUnique(d2: real, sp: real, k: nat)
    requires sp >= 1.0 && d2 >= 0.0
    requires Sq(k as real * sp) <= d2 < Sq((k + 1) as real * sp)
    ensures StepCount(d2, sp) == k
  {
    var s := StepCount(d2, sp);
    BracketOrder(d2, sp, s, k);
    BracketOrder(d2, sp, k, s);
  }

  /** A count whose reach stays within d2 is at most any count whose next
      reach passes d2. */
  lemma BracketOrder(d2: real, sp: real, a: nat, b: nat)
    requires sp >= 1.0 && d2 < Sq((a + 1) as real * sp) && Sq(b as real * sp) <= d2
    ensures b <= a
  {
    if a < b {
      ReachMono(a + 1, b, sp);
      assert false;
    }
  }

  /** `max(1.0, radius * 0.25)`. */
  function Spacing(radius: int): (sp: real)
    ensures sp >= 1.0 && sp >= radius as real * 0.25
  {
    MaxR(1.0, radius as real * 0.25)
  }

  /** `max(1, int(distance / spacing))`. */
  function StrokeSteps(d2: real, radius: int): (n: nat)
    requires d2 >= 0.0
    ensures n >= 1
  {
    MaxI(1, StepCount(d2, Spacing(radius)))
  }

  /** Point `i` of a stroke of `steps` steps: `start + (i / steps) * (end - start)`. */
  function StrokePoint(s: Vec, e: Vec, steps: nat, i: nat): Vec
    requires steps > 0
  {
    var t := i as real / steps as real;
    Vec(s.x + t * (e.x - s.x), s.y + t * (e.y - s.y))
  }

  /** The mask after stamping stroke points 0 .. k-1 in order. */
  function StampsUpTo(m: Mask, w: nat, h: nat, s: Vec, e: Vec, steps: nat, radius: int, isErasing: bool, k: nat): (r: Mask)
    requires IsGrid(m, w, h) && steps > 0
    ensures IsGrid(r, w, h)
  {
    if k == 0 then m
    else Stamp(StampsUpTo(m, w, h, s, e, steps, radius, isErasing, k - 1), w, h,
               StrokePoint(s, e, steps, k - 1), radius, isErasing)
  }

  /** Some stroke point among 0 .. k-1 paints pixel (x, y). */
  predicate TouchedBy(w: nat, h: nat, s: Vec, e: Vec, steps: nat, radius: int, k: nat, y: int, x: int)
    requires steps > 0
  {
    exists i :: 0 <= i < k && Painted(w, h, StrokePoint(s, e, steps, i), radius, y, x)
  }

  function SqDist(s: Vec, e: Vec): real { Sq(e.x - s.x) + Sq(e.y - s.y) }

  /** The mask `interpolated_stroke` produces: a single stamp at the end
      point when the two points are less than one pixel apart, otherwise
      stamps at the `steps + 1` points from start to end inclusive. */
  function StrokeSpec(m: Mask, w: nat, h: nat, s: Vec, e: Vec, radius: int, isErasing: bool): (r: Mask)
    requires IsGrid(m, w, h)
    ensures IsGrid(r, w, h)
  {
    var d2 := SqDist(s, e);
    if d2 < 1.0 then Stamp(m, w, h, e, radius, isErasing)
    else
      var n := StrokeSteps(d2, radius);
      StampsUpTo(m, w, h, s, e, n, radius, isErasing, n + 1)
  }

  /** `interpolated_stroke`. */
  method InterpolatedStroke(mask: Mask, w: nat, h: nat, start: Vec, end: Vec, radius: int, isErasing: bool)
    returns (r: Mask)
    requires IsGrid(mask, w, h)
    ensures r == StrokeSpec(mask, w, h, start, end, radius, isErasing)
  {
    var dx := end.x - start.x;
    var dy := end.y - start.y;
    var d2 := dx * dx + dy * dy;
    assert d2 == SqDist(start, end);
    if d2 < 1.0 {
      r := ApplyCircularBrush(mask, w, h, end, radius, isErasing);
      return;
    }
    var spacing := MaxR(1.0, radius as real * 0.25);
    var steps := MaxI(1, StepCount(d2, spacing));
    r := mask;
    for i := 0 to steps + 1
      invariant r == StampsUpTo(mask, w, h, start, end, steps, radius, isErasing, i)
    {
      r := ApplyCircularBrush(r, w, h, StrokePoint(start, end, steps, i), radius, isErasing);
    }
  }

  /** The first stroke point is the start and the last one the end. */
  lemma StrokeEndpoints(s: Vec, e: Vec, steps: nat)
    requires steps > 0
    ensures StrokePoint(s, e, steps, 0) == s
    ensures StrokePoint(s, e, steps, steps) == e
  {
  }

  /** Points less than one pixel apart give a single stamp at the end
      point; otherwise the stroke takes at least one step, and the step
      count is the floor of the distance over the spacing unless that
      floor is zero. */
  lemma StrokeShape(m: Mask, w: nat, h: nat, s: Vec, e: Vec, radius: int, isErasing: bool)
    requires IsGrid(m, w, h)
    ensures SqDist(s, e) < 1.0 ==> StrokeSpec(m, w, h, s, e, radius, isErasing) == Stamp(m, w, h, e, radius, isErasing)
    ensures SqDist(s, e) >= 1.0 ==>
              var n, sp := StrokeSteps(SqDist(s, e), radius), Spacing(radius);
              && n >= 1 && SqDist(s, e) < Sq((n + 1) as real * sp)
              && (n > 1 ==> Sq(n as real * sp) <= SqDist(s, e))
  {
    StepsBracket(SqDist(s, e), radius);
  }

  /** The stroke's step count brackets the squared distance. */
  lemma StepsBracket(d2: real, radius: int)
    requires d2 >= 0.0
    ensures var n, sp := StrokeSteps(d2, radius), Spacing(radius);
            && d2 < Sq((n + 1) as real * sp)
            && (n > 1 ==> Sq(n as real * sp) <= d2)
  {
    var sp := Spacing(radius);
    var k := StepCount(d2, sp);
    assert StrokeSteps(d2, radius) == MaxI(1, k);
    if k == 0 {
      ReachMono(1, 2, sp);
    }
  }

  /** Stamps 0 .. k-1 in add mode keep everything already set and the first
      and latest stamps' discs; in erase mode the dual; every pixel no stamp
      reaches keeps its value. */
  lemma {:induction false} StampsUpToProperties(m: Mask, w: nat, h: nat, s: Vec, e: Vec, steps: nat, radius: int, isErasing: bool, k: nat)
    requires IsMask(m, w, h) && steps > 0
    ensures var r := StampsUpTo(m, w, h, s, e, steps, radius, isErasing, k);
            && IsMask(r, w, h)
            && (!isErasing ==> Dominates(r, m, w, h))
            && (isErasing ==> Dominates(m, r, w, h))
            && (forall y, x :: 0 <= y < h && 0 <= x < w && !TouchedBy(w, h, s, e, steps, radius, k, y, x)
                  ==> r[y][x] == m[y][x])
            && (forall y, x :: 0 <= y < h && 0 <= x < w && TouchedBy(w, h, s, e, steps, radius, k, y, x)
                  ==> r[y][x] == PaintValue(isErasing))
  {
    var r := StampsUpTo(m, w, h, s, e, steps, radius, isErasing, k);
    if k > 0 {
      var prev := StampsUpTo(m, w, h, s, e, steps, radius, isErasing, k - 1);
      StampsUpToProperties(m, w, h, s, e, steps, radius, isErasing, k - 1);
      var p := StrokePoint(s, e, steps, k - 1);
      StampDirection(prev, w, h, p, radius, isErasing);
      forall y, x | 0 <= y < h && 0 <= x < w
        ensures TouchedBy(w, h, s, e, steps, radius, k, y, x) <==>
                (TouchedBy(w, h, s, e, steps, radius, k - 1, y, x) || Painted(w, h, p, radius, y, x))
      {
        if TouchedBy(w, h, s, e, steps, radius, k, y, x) && !Painted(w, h, p, radius, y, x) {
          var i :| 0 <= i < k && Painted(w, h, StrokePoint(s, e, steps, i), radius, y, x);
          assert i < k - 1;
        }
      }
    }
  }

  /** What a stroke guarantees: add mode keeps the mask's set pixels and
      paints the disc around the end point (and, for a stroke of one pixel
      or more, around the start point); erase mode is the dual; a pixel that
      none of the stroke's discs reaches is unchanged. */
  lemma StrokeProperties(m: Mask, w: nat, h: nat, s: Vec, e: Vec, radius: int, isErasing: bool)
    requires IsMask(m, w, h)
    ensures var r := StrokeSpec(m, w, h, s, e, radius, isErasing);
            && IsMask(r, w, h)
            && (!isErasing ==> Dominates(r, m, w, h))
            && (isErasing ==> Dominates(m, r, w, h))
            && (forall y, x :: 0 <= y < h && 0 <= x < w && Painted(w, h, e, radius, y, x)
                  ==> r[y][x] == PaintValue(isErasing))
            && (SqDist(s, e) >= 1.0 ==>
                  forall y, x :: 0 <= y < h && 0 <= x < w && Painted(w, h, s, radius, y, x)
                    ==> r[y][x] == PaintValue(isErasing))
            && (SqDist(s, e) < 1.0 ==>
                  forall y, x :: 0 <= y < h && 0 <= x < w && !Painted(w, h, e, radius, y, x)
                    ==> r[y][x] == m[y][x])
            && (SqDist(s, e) >= 1.0 ==>
                  var n := StrokeSteps(SqDist(s, e), radius);
                  forall y, x :: 0 <= y < h && 0 <= x < w && !TouchedBy(w, h, s, e, n, radius, n + 1, y, x)
                    ==> r[y][x] == m[y][x])
  {
    var d2 := SqDist(s, e);
    if d2 < 1.0 {
      StampDirection(m, w, h, e, radius, isErasing);
    } else {
      var n := StrokeSteps(d2, radius);
      StampsUpToProperties(m, w, h, s, e, n, radius, isErasing, n + 1);
      StrokeEndpoints(s, e, n);
      forall y, x | 0 <= y < h && 0 <= x < w && Painted(w, h, e, radius, y, x)
        ensures TouchedBy(w, h, s, e, n, radius, n + 1, y, x)
      {
        assert Painted(w, h, StrokePoint(s, e, n, n), radius, y, x);
      }
      forall y, x | 0 <= y < h && 0 <= x < w && Painted(w, h, s, radius, y, x)
        ensures TouchedBy(w, h, s, e, n, radius, n + 1, y, x)
      {
        assert Painted(w, h, StrokePoint(s, e, n, 0), radius, y, x);
      }
    }
  }
}
