/**
  Rectangles and the progress-driven interpolation between them
  (core/src/render.c, "Rectangle-related functions").

  A rectangle has inclusive corners, so a rectangle with x1 == x2 is one pixel wide.
 */
module Rects {

  datatype Rect = Rect(x1: int, x2: int, y1: int, y2: int)

  predicate Valid(r: Rect) {
    r.x1 <= r.x2 && r.y1 <= r.y2
  }

  predicate Has(r: Rect, x: int, y: int) {
    r.x1 <= x <= r.x2 && r.y1 <= y <= r.y2
  }

  /** The pixel lies in at least one of the rectangles. */
  predicate Covered(rs: seq<Rect>, x: int, y: int) {
    exists i :: 0 <= i < |rs| && Has(rs[i], x, y)
  }

  predicate OnScreen(w: int, h: int, x: int, y: int) {
    0 <= x < w && 0 <= y < h
  }

  /** Every pixel of the rectangle is on a screen of w x h pixels. */
  predicate Inside(w: int, h: int, r: Rect) {
    Valid(r) && 0 <= r.x1 && r.x2 < w && 0 <= r.y1 && r.y2 < h
  }

  function Min(a: int, b: int): int { if a < b then a else b }

  function Max(a: int, b: int): int { if a > b then a else b }

  function Distance(a: int, b: int): int { Max(a - b, b - a) }

  // ---------------------------------------------------------------- geometry

  /** rect_contains */
  predicate Contains(a: Rect, b: Rect) {
    a.x1 <= b.x1 && a.y1 <= b.y1 && a.x2 >= b.x2 && a.y2 >= b.y2
  }

  /** rect_intersect */
  predicate Intersects(a: Rect, b: Rect) {
    !(a.x2 < b.x1 || a.x1 > b.x2 || a.y1 > b.y2 || a.y2 < b.y1)
  }

  /** rect_min */
  function Meet(a: Rect, b: Rect): Rect {
    Rect(Max(a.x1, b.x1), Min(a.x2, b.x2), Max(a.y1, b.y1), Min(a.y2, b.y2))
  }

  /** rect_bnd */
  function Bound(a: Rect, b: Rect): Rect {
    Rect(Min(a.x1, b.x1), Max(a.x2, b.x2), Min(a.y1, b.y1), Max(a.y2, b.y2))
  }

  /** One coordinate of rect_sanitize, for an axis of n pixels. */
  function Clamp(v: int, n: int): int {
    if v < 0 then 0 else if v >= n then n - 1 else v
  }

  /** rect_sanitize */
  function Sanitize(w: int, h: int, r: Rect): Rect {
    Rect(Clamp(r.x1, w), Clamp(r.x2, w), Clamp(r.y1, h), Clamp(r.y2, h))
  }

  /** rect_bnd is the smallest rectangle that contains both. */
  lemma BoundIsSmallest(a: Rect, b: Rect, c: Rect)
    ensures Contains(Bound(a, b), a) && Contains(Bound(a, b), b)
    ensures Contains(c, a) && Contains(c, b) ==> Contains(c, Bound(a, b))
  {
  }

  /** A clamped coordinate is the nearest one on the screen. */
  lemma ClampIsNearest(v: int, n: int, u: int)
    requires 0 <= u < n
    ensures 0 <= Clamp(v, n) < n && Distance(Clamp(v, n), v) <= Distance(u, v)
  {
  }

  /** The corners of a sanitised rectangle are the pixels of the screen nearest to its corners. */
  lemma SanitizeIsNearest(w: int, h: int, r: Rect, x: int, y: int)
    requires w > 0 && h > 0 && Valid(r) && OnScreen(w, h, x, y)
    ensures var s := Sanitize(w, h, r);
            && Distance(s.x1, r.x1) <= Distance(x, r.x1) && Distance(s.x2, r.x2) <= Distance(x, r.x2)
            && Distance(s.y1, r.y1) <= Distance(y, r.y1) && Distance(s.y2, r.y2) <= Distance(y, r.y2)
            && Inside(w, h, s)
  {
    hide Distance, Clamp;
    ClampIsNearest(r.x1, w, x);
    ClampIsNearest(r.x2, w, x);
    ClampIsNearest(r.y1, h, y);
    ClampIsNearest(r.y2, h, y);
    SanitizeCovers(w, h, r);
  }

  /** For rectangles that have pixels, rect_contains is inclusion of pixel sets. */
  lemma ContainsMeansInclusion(a: Rect, b: Rect)
    requires Valid(b)
    ensures Contains(a, b) <==> forall x, y :: Has(b, x, y) ==> Has(a, x, y)
  {
    if forall x, y :: Has(b, x, y) ==> Has(a, x, y) {
      assert Has(b, b.x1, b.y1) && Has(b, b.x2, b.y2);
    }
  }

  /** rect_intersect holds exactly when the rectangles share a pixel, which is
      exactly when rect_min gives a rectangle that has pixels. */
  lemma IntersectsMeansSharedPixel(a: Rect, b: Rect)
    requires Valid(a) && Valid(b)
    ensures Intersects(a, b) <==> exists x, y :: Has(a, x, y) && Has(b, x, y)
    ensures Intersects(a, b) <==> Valid(Meet(a, b))
    ensures forall x, y :: Has(Meet(a, b), x, y) <==> Has(a, x, y) && Has(b, x, y)
  {
    if Intersects(a, b) {
      var m := Meet(a, b);
      assert Has(a, m.x1, m.y1) && Has(b, m.x1, m.y1);
    }
  }

  /** Sanitizing never loses an on-screen pixel and always gives an on-screen rectangle. */
  lemma SanitizeCovers(w: int, h: int, r: Rect)
    requires w > 0 && h > 0 && Valid(r)
    ensures Inside(w, h, Sanitize(w, h, r))
    ensures forall x, y :: OnScreen(w, h, x, y) && Has(r, x, y) ==> Has(Sanitize(w, h, r), x, y)
  {
  }

  /** Sanitizing keeps exactly the on-screen part if and only if there is one:
      a rectangle that lies off screen is moved to an edge strip instead of vanishing. */
  lemma SanitizeExact(w: int, h: int, r: Rect)
    requires w > 0 && h > 0 && Valid(r)
    ensures Intersects(r, Rect(0, w - 1, 0, h - 1)) <==>
            forall x, y :: Has(Sanitize(w, h, r), x, y) <==> OnScreen(w, h, x, y) && Has(r, x, y)
  {
    var s := Sanitize(w, h, r);
    assert Has(s, s.x1, s.y1);
    if Intersects(r, Rect(0, w - 1, 0, h - 1)) {
      forall x, y ensures Has(s, x, y) <==> OnScreen(w, h, x, y) && Has(r, x, y) {}
    }
  }

  // ----------------------------------------------------------- interpolation

  /** FBSPL_PROGRESS_MAX */
  const PROGRESS_MAX := 0xffff

  predicate InRange(p: int) {
    0 <= p <= PROGRESS_MAX
  }

  /** Division of C's int type: the quotient is truncated toward zero. */
  function CDiv(a: int, m: int): int
    requires m > 0
  {
    if a >= 0 then a / m else -((-a) / m)
  }

  /** One coordinate of rect_interpolate. */
  function Mix(a: int, b: int, p: int): int {
    CDiv(a * (PROGRESS_MAX - p) + b * p, PROGRESS_MAX)
  }

  /** rect_interpolate */
  function Interpolate(a: Rect, b: Rect, p: int): Rect {
    Rect(Mix(a.x1, b.x1, p), Mix(a.x2, b.x2, p), Mix(a.y1, b.y1, p), Mix(a.y2, b.y2, p))
  }

  lemma MulMonotone(a: int, b: int, m: int)
    requires a <= b && 0 <= m
    ensures a * m <= b * m
  {
    assert (b - a) * m >= 0;
  }

  lemma DivMonotone(a: int, b: int, m: int)
    requires m > 0 && 0 <= a <= b
    ensures a / m <= b / m
  {
    if a / m > b / m {
      MulMonotone(b / m + 1, a / m, m);
    }
  }

  lemma CDivMonotone(a: int, b: int, m: int)
    requires m > 0 && a <= b
    ensures CDiv(a, m) <= CDiv(b, m)
  {
    if a >= 0 {
      DivMonotone(a, b, m);
    } else if b < 0 {
      DivMonotone(-b, -a, m);
    } else {
      DivMonotone(0, -a, m);
      DivMonotone(0, b, m);
    }
  }

  lemma CDivExact(a: int, m: int)
    requires m > 0
    ensures CDiv(a * m, m) == a
  {
    if a >= 0 {
      MulMonotone(0, a, m);
      DivExact(a, m);
    } else {
      MulMonotone(a, -1, m);
      DivExact(-a, m);
      assert -(a * m) == (-a) * m;
    }
  }

  lemma DivExact(a: int, m: int)
    requires m > 0
    ensures a * m / m == a
  {
    var q := a * m / m;
    assert 0 <= a * m - q * m < m;
    assert a * m - q * m == (a - q) * m;
    if a > q {
      MulMonotone(1, a - q, m);
    } else if a < q {
      MulMonotone(a - q, -1, m);
    }
  }

  lemma MixMonotone(a: int, b: int, a': int, b': int, p: int)
    requires InRange(p) && a <= a' && b <= b'
    ensures Mix(a, b, p) <= Mix(a', b', p)
  {
    var h := PROGRESS_MAX - p;
    assert a * h <= a' * h && b * p <= b' * p;
    CDivMonotone(a * h + b * p, a' * h + b' * p, PROGRESS_MAX);
  }

  lemma MixSame(a: int, p: int)
    ensures Mix(a, a, p) == a
  {
    assert a * (PROGRESS_MAX - p) + a * p == a * PROGRESS_MAX;
    CDivExact(a, PROGRESS_MAX);
  }

  /** An interpolated coordinate starts at a, ends at b, and never leaves [min, max]. */
  lemma MixBounds(a: int, b: int, p: int)
    requires InRange(p)
    ensures Min(a, b) <= Mix(a, b, p) <= Max(a, b)
    ensures Mix(a, b, 0) == a && Mix(a, b, PROGRESS_MAX) == b
  {
    var lo, hi := Min(a, b), Max(a, b);
    MixMonotone(lo, lo, a, b, p);
    MixMonotone(a, b, hi, hi, p);
    MixSame(lo, p);
    MixSame(hi, p);
    CDivExact(a, PROGRESS_MAX);
    CDivExact(b, PROGRESS_MAX);
  }

  lemma MixDifference(a: int, b: int, p: int, q: int)
    ensures (a * (PROGRESS_MAX - q) + b * q) - (a * (PROGRESS_MAX - p) + b * p) == (b - a) * (q - p)
  {
    assert (b - a) * (q - p) == b * q - b * p - a * q + a * p;
  }

  /** More progress moves a coordinate toward its end value and never back. */
  lemma MixForward(a: int, b: int, p: int, q: int)
    requires 0 <= p <= q <= PROGRESS_MAX
    ensures a <= b ==> Mix(a, b, p) <= Mix(a, b, q)
    ensures a >= b ==> Mix(a, b, p) >= Mix(a, b, q)
  {
    var u := a * (PROGRESS_MAX - p) + b * p;
    var v := a * (PROGRESS_MAX - q) + b * q;
    MixDifference(a, b, p, q);
    if a <= b {
      MulMonotone(0, b - a, q - p);
      CDivMonotone(u, v, PROGRESS_MAX);
    }
    if a >= b {
      MulMonotone(b - a, 0, q - p);
      CDivMonotone(v, u, PROGRESS_MAX);
    }
  }

  /** rect_interpolate of two rectangles with pixels has pixels, stays in the common
      bound of its arguments, and meets them at the ends of the progress range. */
  lemma InterpolateStaysInBound(a: Rect, b: Rect, p: int)
    requires Valid(a) && Valid(b) && InRange(p)
    ensures Valid(Interpolate(a, b, p))
    ensures Contains(Bound(a, b), Interpolate(a, b, p))
    ensures Interpolate(a, b, 0) == a && Interpolate(a, b, PROGRESS_MAX) == b
  {
    MixMonotone(a.x1, b.x1, a.x2, b.x2, p);
    MixMonotone(a.y1, b.y1, a.y2, b.y2, p);
    MixBounds(a.x1, b.x1, p);
    MixBounds(a.x2, b.x2, p);
    MixBounds(a.y1, b.y1, p);
    MixBounds(a.y2, b.y2, p);
  }

  predicate FitsInt32(v: int) {
    -0x8000_0000 <= v < 0x8000_0000
  }

  /** v is n / d, truncated toward zero. */
  predicate IsQuotient(v: int, n: int, d: int) {
    && (n >= 0 ==> v >= 0 && v * d <= n < v * d + d)
    && (n < 0 ==> v <= 0 && v * d - d < n <= v * d)
  }

  lemma OneQuotient(u: int, v: int, n: int, d: int)
    requires d > 0 && IsQuotient(u, n, d) && IsQuotient(v, n, d)
    ensures u == v
  {
    if u < v {
      MulMonotone(u + 1, v, d);
    } else if v < u {
      MulMonotone(v + 1, u, d);
    }
  }

  lemma CDivIs(n: int, d: int)
    requires d > 0
    ensures IsQuotient(CDiv(n, d), n, d)
  {
    if n >= 0 {
      assert n == (n / d) * d + n % d;
      DivMonotone(0, n, d);
    } else {
      var m := -n;
      assert m == (m / d) * d + m % d;
      DivMonotone(0, m, d);
      assert -(m / d) * d == -((m / d) * d);
    }
  }

  lemma DivIs(n: nat, d: int)
    requires d > 0
    ensures IsQuotient(n / d, n, d)
  {
    CDivIs(n, d);
  }

  /** The share of the way from a to b that the progress is of 65535, as an exact integer. */
  lemma MixIsShare(a: int, b: int, p: int)
    ensures IsQuotient(Mix(a, b, p), a * (65535 - p) + b * p, 65535)
  {
    CDivIs(a * (PROGRESS_MAX - p) + b * p, PROGRESS_MAX);
  }

  /** Every coordinate of an interpolated rectangle is that share of its own two ends. */
  lemma InterpolateIsShare(a: Rect, b: Rect, p: int)
    ensures var r := Interpolate(a, b, p);
            && IsQuotient(r.x1, a.x1 * (65535 - p) + b.x1 * p, 65535)
            && IsQuotient(r.x2, a.x2 * (65535 - p) + b.x2 * p, 65535)
            && IsQuotient(r.y1, a.y1 * (65535 - p) + b.y1 * p, 65535)
            && IsQuotient(r.y2, a.y2 * (65535 - p) + b.y2 * p, 65535)
  {
    hide Mix, IsQuotient;
    MixIsShare(a.x1, b.x1, p);
    MixIsShare(a.x2, b.x2, p);
    MixIsShare(a.y1, b.y1, p);
    MixIsShare(a.y2, b.y2, p);
  }

  /** No intermediate value of Mix leaves C's 32-bit int. */
  predicate MixFits(a: int, b: int, p: int) {
    var h := PROGRESS_MAX - p;
    FitsInt32(a * h) && FitsInt32(b * p) && FitsInt32(a * h + b * p)
  }

  /** Interpolation is free of 32-bit overflow at every progress value if and only if
      both coordinates lie in -32768 .. 32768. */
  lemma MixOverflow(a: int, b: int)
    ensures (forall p :: InRange(p) ==> MixFits(a, b, p)) <==>
            -32768 <= a <= 32768 && -32768 <= b <= 32768
  {
    if -32768 <= a <= 32768 && -32768 <= b <= 32768 {
      forall p | InRange(p) ensures MixFits(a, b, p) {
        var h := PROGRESS_MAX - p;
        MulMonotone(-32768, a, h);
        MulMonotone(a, 32768, h);
        MulMonotone(-32768, b, p);
        MulMonotone(b, 32768, p);
      }
    } else {
      assert InRange(0) && InRange(PROGRESS_MAX);
      assert MixFits(a, b, 0) ==> FitsInt32(a * PROGRESS_MAX);
      assert MixFits(a, b, PROGRESS_MAX) ==> FitsInt32(b * PROGRESS_MAX);
    }
  }
}
