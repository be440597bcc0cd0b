/** Rectangular pixel grids (`grid[y][x]`, rows of equal width) and the two
    nearest-neighbour resampling rules the application uses: PIL's
    `Image.NEAREST` and OpenCV's `INTER_NEAREST`. */
module Grids {
  import opened Common

  /** `g` has `h` rows of `w` cells each. */
  predicate IsGrid<T>(g: seq<seq<T>>, w: nat, h: nat) {
    |g| == h && forall y :: 0 <= y < h ==> |g[y]| == w
  }

  function Height<T>(g: seq<seq<T>>): nat { |g| }

  function Width<T>(g: seq<seq<T>>): nat { if |g| == 0 then 0 else |g[0]| }

  /** All rows have the width of the first one. */
  predicate IsRect<T>(g: seq<seq<T>>) { IsGrid(g, Width(g), Height(g)) }

  /** A rectangular grid with at least one pixel (a decodable image). */
  predicate NonEmpty<T>(g: seq<seq<T>>) { IsRect(g) && Width(g) >= 1 && Height(g) >= 1 }

  /** Which source cell a nearest-neighbour resize reads. */
  datatype NearestRule = Pil | Cv2

  /** Source index read for destination index `d` when resizing an axis of
      `src` cells to `dst` cells. PIL samples at the pixel centre,
      floor((d + 0.5) * src / dst); OpenCV uses min(floor(d * src / dst), src - 1). */
  function SourceIndex(rule: NearestRule, d: nat, src: nat, dst: nat): (s: nat)
    requires d < dst && src > 0
    ensures s < src
  {
    match rule
    case Pil =>
      PilBound(d, src, dst);
      ((2 * d + 1) * src) / (2 * dst)
    case Cv2 =>
      DivBracket(d * src, dst);
      MinI((d * src) / dst, src - 1)
  }

  lemma PilBound(d: nat, src: nat, dst: nat)
    requires d < dst && src > 0
    ensures 0 <= ((2 * d + 1) * src) / (2 * dst) < src
  {
    var n, m := (2 * d + 1) * src, 2 * dst;
    DivBracket(n, m);
    MulMono(src, 2 * d + 1, m - 1);
    assert n <= src * (m - 1) == m * src - src;
    if n / m >= src {
      MulMono(m, src, n / m);
      assert false;
    }
  }

  /** Resizing an axis to its own length reads every index in place: both
      rules are the identity there, as PIL's early `copy()` is. */
  lemma SourceIndexSameSize(rule: NearestRule, d: nat, n: nat)
    requires d < n
    ensures SourceIndex(rule, d, n, n) == d
  {
    match rule
    case Pil =>
      assert (2 * d + 1) * n == 2 * n * d + n;
      DivUnique((2 * d + 1) * n, 2 * n, d);
    case Cv2 =>
      assert d * n == n * d;
      DivUnique(d * n, n, d);
  }

  /** Nearest-neighbour resize of a `w` x `h` grid to `nw` x `nh`. */
  function NearestResize<T>(rule: NearestRule, g: seq<seq<T>>, w: nat, h: nat, nw: nat, nh: nat): (r: seq<seq<T>>)
    requires IsGrid(g, w, h) && w > 0 && h > 0
    ensures IsGrid(r, nw, nh)
  {
    seq(nh, y requires 0 <= y < nh =>
      seq(nw, x requires 0 <= x < nw => g[SourceIndex(rule, y, h, nh)][SourceIndex(rule, x, w, nw)]))
  }

  /** Every resized pixel is a copy of some source pixel, so resizing never
      invents a value (a 0/255 mask stays 0/255). */
  lemma ResizeCopiesSourcePixels<T>(rule: NearestRule, g: seq<seq<T>>, w: nat, h: nat, nw: nat, nh: nat, y: nat, x: nat)
    requires IsGrid(g, w, h) && w > 0 && h > 0 && y < nh && x < nw
    ensures exists sy, sx :: 0 <= sy < h && 0 <= sx < w && NearestResize(rule, g, w, h, nw, nh)[y][x] == g[sy][sx]
  {
    var sy, sx := SourceIndex(rule, y, h, nh), SourceIndex(rule, x, w, nw);
    assert NearestResize(rule, g, w, h, nw, nh)[y][x] == g[sy][sx];
  }

  /** Resizing to the grid's own size gives the grid back. */
  lemma ResizeSameSizeIsIdentity<T>(rule: NearestRule, g: seq<seq<T>>, w: nat, h: nat)
    requires IsGrid(g, w, h) && w > 0 && h > 0
    ensures NearestResize(rule, g, w, h, w, h) == g
  {
    var r := NearestResize(rule, g, w, h, w, h);
    forall y | 0 <= y < h ensures r[y] == g[y] {
      SourceIndexSameSize(rule, y, h);
      forall x | 0 <= x < w ensures r[y][x] == g[y][x] {
        SourceIndexSameSize(rule, x, w);
      }
    }
  }

  /** PIL nearest: going from `small` cells up to `big` and back down reads
      every small index in place. */
  lemma PilUpDownIndex(d: nat, small: nat, big: nat)
    requires 0 < small <= big && d < small
    ensures SourceIndex(Pil, SourceIndex(Pil, d, big, small), small, big) == d
  {
    if small == big {
      SourceIndexSameSize(Pil, d, big);
    } else {
      var y := SourceIndex(Pil, d, big, small);
      var p, q := small * y, big * d;
      CentreProducts(d, big, small, y);
      DivBracket((2 * d + 1) * big, 2 * small);
      assert 2 * p <= 2 * q + big < 2 * p + 2 * small;
      CentresBracket(small, big, p, q);
      CentreProducts(y, small, big, d);
      DivUnique((2 * y + 1) * small, 2 * big, d);
    }
  }

  /** The products the centre rule compares, written in terms of
      `n * i` and `m * j`. */
  lemma CentreProducts(i: int, n: int, m: int, j: int)
    ensures (2 * i + 1) * n == 2 * (n * i) + n
    ensures (2 * m) * j == 2 * (m * j)
    ensures (2 * m) * j + 2 * m == 2 * (m * j) + 2 * m
  {
  }

  /** The linear step of the round trip: with `p = small * y` and
      `q = big * d`, the centre of the small cell `y` falls in the big
      cell `d` whose centre fell in it. */
  lemma CentresBracket(small: int, big: int, p: int, q: int)
    requires 0 < small < big && 2 * p <= 2 * q + big < 2 * p + 2 * small
    ensures 2 * q <= 2 * p + small < 2 * q + 2 * big
  {
  }

  /** A PIL nearest upscale followed by a nearest downscale back to the
      original size is the identity. */
  lemma {:induction false} UpThenDownIsIdentity<T>(g: seq<seq<T>>, w: nat, h: nat, bigW: nat, bigH: nat)
    requires IsGrid(g, w, h) && 0 < w <= bigW && 0 < h <= bigH
    ensures NearestResize(Pil, NearestResize(Pil, g, w, h, bigW, bigH), bigW, bigH, w, h) == g
  {
    var up := NearestResize(Pil, g, w, h, bigW, bigH);
    var down := NearestResize(Pil, up, bigW, bigH, w, h);
    forall y | 0 <= y < h ensures down[y] == g[y] {
      PilUpDownIndex(y, h, bigH);
      forall x | 0 <= x < w ensures down[y][x] == g[y][x] {
        PilUpDownIndex(x, w, bigW);
      }
    }
  }
}
