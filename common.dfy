/** Small shared vocabulary: optional values, Python-style failures, and the
    numeric conversions the application relies on (Python's `int()` on a float,
    `max`/`min` clamps). */
module Common {

  datatype Option<T> = None | Some(value: T)

  /** A Python computation that either yields a value or raises. */
  datatype Result<T> = Ok(value: T) | Err(error: string)

  /** A 2-D point or vector with real coordinates (Python float pairs). */
  datatype Vec = Vec(x: real, y: real)

  function Add(a: Vec, b: Vec): Vec { Vec(a.x + b.x, a.y + b.y) }

  function Sub(a: Vec, b: Vec): Vec { Vec(a.x - b.x, a.y - b.y) }

  /** A rectangle on the canvas: top-left corner and size, as Python ints. */
  datatype Rect = Rect(left: int, top: int, w: int, h: int)

  /** Python's `int(x)` for a float: truncation toward zero. */
  function Trunc(x: real): (n: int)
    ensures x >= 0.0 ==> n >= 0 && n as real <= x < n as real + 1.0
    ensures x < 0.0 ==> n <= 0 && n as real - 1.0 < x <= n as real
  {
    if x >= 0.0 then x.Floor else -((-x).Floor)
  }

  function MaxR(a: real, b: real): real { if a >= b then a else b }

  function MinR(a: real, b: real): real { if a <= b then a else b }

  function MaxI(a: int, b: int): int { if a >= b then a else b }

  function MinI(a: int, b: int): int { if a <= b then a else b }

  /** `max(lo, min(hi, v))`, the clamp idiom used throughout the source. */
  function Clamp(lo: real, hi: real, v: real): (r: real)
    requires lo <= hi
    ensures lo <= r <= hi
    ensures lo <= v <= hi ==> r == v
    ensures v < lo ==> r == lo
    ensures v > hi ==> r == hi
  {
    MaxR(lo, MinR(hi, v))
  }

  /** Multiplication by a non-negative factor is monotone. */
  lemma MulMono(m: int, a: int, b: int)
    requires m >= 0 && a <= b
    ensures m * a <= m * b
  {
    assert m * b - m * a == m * (b - a);
  }

  /** Multiplication by a positive factor is strictly monotone. */
  lemma MulStrict(m: int, a: int, b: int)
    requires m > 0 && a < b
    ensures m * a < m * b
  {
    MulMono(m, a + 1, b);
    assert m * (a + 1) == m * a + m;
  }

  /** The product of two non-negative reals is non-negative. */
  lemma RealNonNegProduct(a: real, b: real)
    requires a >= 0.0 && b >= 0.0
    ensures a * b >= 0.0
  {
  }

  lemma RealPosProduct(a: real, b: real)
    requires a > 0.0 && b > 0.0
    ensures a * b > 0.0
  {
  }

  /** Multiplication of reals by a non-negative factor is monotone. */
  lemma RealMulMono(m: real, a: real, b: real)
    requires m >= 0.0 && a <= b
    ensures a * m <= b * m
  {
    assert b * m - a * m == m * (b - a);
    RealNonNegProduct(m, b - a);
  }

  /** `q = int(n / d)` for non-negative integers brackets `n` between
      multiples of `d`. */
  lemma TruncQuotient(n: int, d: int, q: int)
    requires n >= 0 && d > 0 && q == Trunc(n as real / d as real)
    ensures q * d <= n < (q + 1) * d
  {
    var t := n as real / d as real;
    assert t * d as real == n as real;
    if t < 0.0 {
      RealPosProduct(-t, d as real);
      assert false;
    }
    var dr := d as real;
    ScaledBelow(n as real, dr, q as real, t);
    ScaledAbove(n as real, dr, (q + 1) as real, t);
    RealOfProduct(q, d, q * d);
    RealOfProduct(q + 1, d, (q + 1) * d);
  }

  /** From `t * d == n` with `d > 0`, a lower bound on `t` scales to `n`. */
  lemma ScaledBelow(n: real, d: real, q: real, t: real)
    requires d > 0.0 && t * d == n && q <= t
    ensures q * d <= n
  {
    RealMulMono(d, q, t);
  }

  /** From `t * d == n` with `d > 0`, a strict upper bound on `t` scales to `n`. */
  lemma ScaledAbove(n: real, d: real, r: real, t: real)
    requires d > 0.0 && t * d == n && t < r
    ensures n < r * d
  {
    RealMulStrict(d, t, r);
  }

  /** Multiplication of reals by a positive factor is strictly monotone. */
  lemma RealMulStrict(m: real, a: real, b: real)
    requires m > 0.0 && a < b
    ensures a * m < b * m
  {
    assert b * m - a * m == (b - a) * m;
    RealPosProduct(b - a, m);
  }

  lemma RealOfProduct(a: int, b: int, c: int)
    requires c == a * b
    ensures c as real == a as real * b as real
  {
  }

  /** `int(a * (b / d))` for naturals is the integer quotient `a * b // d`. */
  lemma TruncScaledQuotient(a: nat, b: nat, d: nat)
    requires d > 0
    ensures Trunc(a as real * (b as real / d as real)) == (a * b) / d
  {
    var n := a * b;
    assert a as real * b as real == n as real;
    assert a as real * (b as real / d as real) == n as real / d as real;
    var q := Trunc(n as real / d as real);
    TruncQuotient(n, d, q);
    DivUnique(n, d, q);
  }

  lemma DivBracket(n: int, m: int)
    requires n >= 0 && m > 0
    ensures n / m >= 0
    ensures m * (n / m) <= n < m * (n / m) + m
  {
    var q, r := n / m, n % m;
    assert n == m * q + r && 0 <= r < m;
    if q < 0 {
      MulMono(m, q, -1);
      assert false;
    }
  }

  /** The quotient is the unique multiple bracketing `n`. */
  lemma DivUnique(n: int, m: int, q: int)
    requires n >= 0 && m > 0 && m * q <= n < m * q + m
    ensures n / m == q
  {
    DivBracket(n, m);
    var r := n / m;
    if r > q {
      MulMono(m, q + 1, r);
      assert false;
    }
    if r < q {
      MulMono(m, r + 1, q);
      assert false;
    }
  }

  /** Python's `or` fallback for a Tk size: `winfo_width() or d`. */
  function OrDefault(v: int, d: int): int { if v == 0 then d else v }
}
