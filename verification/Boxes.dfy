/**
  Boxes: corner colours, gradients, interpolation with the progress value, and the damage
  optimisation for boxes that grow or shrink along one axis (core/src/render.c,
  box_interpolate, box_prerender and box_render; core/src/parse.c, parse_cfg).
 */
module Boxes {
  import opened Rects
  import opened Pixels

  datatype Color = Color(r: byte, g: byte, b: byte, a: byte)

  /** The attribute bits of a box; the last three are set by the parser. */
  datatype Attr = Attr(noover: bool, inter: bool, solid: bool, vgrad: bool, hgrad: bool)

  /** A rectangle that has pixels: parse_box refuses all others. */
  type VRect = r: Rect | Valid(r) witness Rect(0, 0, 0, 0)

  /** Rectangle, colours of the upper left, upper right, lower left and lower right corner. */
  datatype Box = Box(re: VRect, ul: Color, ur: Color, ll: Color, lr: Color, attr: Attr)

  // ------------------------------------------------------------- classification

  /** parse_cfg: the attributes of an interpolated box whose target is `to`. */
  function Classify(from: Box, to: Box): Attr {
    if from.ul == to.ul && from.ll == to.ll && from.ur == to.ur && from.lr == to.lr then
      if from.ul == from.ur then
        if from.ll == from.lr then
          if from.ll == from.ul then from.attr.(solid := true) else from.attr.(vgrad := true)
        else from.attr
      else if from.ul == from.ll && from.ur == from.lr then from.attr.(hgrad := true)
      else from.attr
    else from.attr
  }

  /** parse_cfg: the attributes of a box that is not interpolated. */
  function ClassifyPlain(b: Box): Attr {
    if b.ul == b.ur && b.ll == b.lr && b.ll == b.ul then b.attr.(solid := true) else b.attr
  }

  /** All corners have one colour. */
  predicate OneColour(b: Box) {
    b.ul == b.ur == b.ll == b.lr
  }

  /** Exactly when the parser sets each bit of an interpolated box: its colours do not change, and
      they are all one, or one for each row, or one for each column. */
  lemma ClassifyIff(from: Box, to: Box)
    ensures var c, fixed := Classify(from, to), SameColours(from, to);
            && (c.solid <==> from.attr.solid || (fixed && OneColour(from)))
            && (c.vgrad <==> from.attr.vgrad || (fixed && from.ul == from.ur && from.ll == from.lr && !OneColour(from)))
            && (c.hgrad <==> from.attr.hgrad || (fixed && from.ul == from.ll && from.ur == from.lr && !OneColour(from)))
            && c.noover == from.attr.noover && c.inter == from.attr.inter
  {
  }

  lemma ClassifyPlainIff(b: Box)
    ensures ClassifyPlain(b) == b.attr.(solid := b.attr.solid || OneColour(b))
  {
  }

  /** What the attribute bits promise about the corner colours. */
  predicate Honest(b: Box) {
    && (b.attr.solid ==> b.ul == b.ur == b.ll == b.lr)
    && (b.attr.vgrad ==> b.ul == b.ur && b.ll == b.lr)
    && (b.attr.hgrad ==> b.ul == b.ll && b.ur == b.lr)
  }

  predicate SameColours(a: Box, b: Box) {
    a.ul == b.ul && a.ur == b.ur && a.ll == b.ll && a.lr == b.lr
  }

  // -------------------------------------------------------------- interpolation

  function MixByte(a: byte, b: byte, p: int): byte
    requires InRange(p)
  {
    MixBounds(a, b, p);
    Mix(a, b, p)
  }

  function MixColor(a: Color, b: Color, p: int): Color
    requires InRange(p)
  {
    Color(MixByte(a.r, b.r, p), MixByte(a.g, b.g, p), MixByte(a.b, b.b, p), MixByte(a.a, b.a, p))
  }

  /** box_interpolate */
  function BoxAt(from: Box, to: Box, p: int): Box
    requires InRange(p)
  {
    InterpolateStaysInBound(from.re, to.re, p);
    Box(Interpolate(from.re, to.re, p), MixColor(from.ul, to.ul, p), MixColor(from.ur, to.ur, p),
        MixColor(from.ll, to.ll, p), MixColor(from.lr, to.lr, p), from.attr)
  }

  /** Every component of c is the share of the way from a to b that the progress is of 65535. */
  predicate ColourShare(c: Color, a: Color, b: Color, p: int) {
    && IsQuotient(c.r, a.r * (65535 - p) + b.r * p, 65535) && IsQuotient(c.g, a.g * (65535 - p) + b.g * p, 65535)
    && IsQuotient(c.b, a.b * (65535 - p) + b.b * p, 65535) && IsQuotient(c.a, a.a * (65535 - p) + b.a * p, 65535)
  }

  lemma MixColorIsShare(a: Color, b: Color, p: int)
    requires InRange(p)
    ensures ColourShare(MixColor(a, b, p), a, b, p)
  {
    hide Mix, IsQuotient;
    MixIsShare(a.r, b.r, p);
    MixIsShare(a.g, b.g, p);
    MixIsShare(a.b, b.b, p);
    MixIsShare(a.a, b.a, p);
  }

  /** A rectangle all of whose coordinates are that share of those of two others. */
  predicate RectShare(r: Rect, a: Rect, b: Rect, p: int) {
    && IsQuotient(r.x1, a.x1 * (65535 - p) + b.x1 * p, 65535) && IsQuotient(r.x2, a.x2 * (65535 - p) + b.x2 * p, 65535)
    && IsQuotient(r.y1, a.y1 * (65535 - p) + b.y1 * p, 65535) && IsQuotient(r.y2, a.y2 * (65535 - p) + b.y2 * p, 65535)
  }

  /** An interpolated box lies, and is coloured, where the progress says. */
  lemma BoxIsShare(from: Box, to: Box, p: int)
    requires InRange(p)
    ensures var b := BoxAt(from, to, p);
            && RectShare(b.re, from.re, to.re, p) && b.attr == from.attr
            && ColourShare(b.ul, from.ul, to.ul, p) && ColourShare(b.ur, from.ur, to.ur, p)
            && ColourShare(b.ll, from.ll, to.ll, p) && ColourShare(b.lr, from.lr, to.lr, p)
  {
    hide Interpolate, MixColor, IsQuotient, ColourShare;
    InterpolateStaysInBound(from.re, to.re, p);
    InterpolateIsShare(from.re, to.re, p);
    MixColorIsShare(from.ul, to.ul, p);
    MixColorIsShare(from.ur, to.ur, p);
    MixColorIsShare(from.ll, to.ll, p);
    MixColorIsShare(from.lr, to.lr, p);
  }

  lemma MixColorSame(c: Color, p: int)
    requires InRange(p)
    ensures MixColor(c, c, p) == c
  {
    MixSame(c.r, p);
    MixSame(c.g, p);
    MixSame(c.b, p);
    MixSame(c.a, p);
  }

  /** The parser sets a gradient or solid bit only when both ends have the same corner colours,
      so such a box keeps its colours, and keeps the promise of its bits, at every progress value. */
  lemma ClassifiedKeepsColours(from: Box, to: Box, p: int)
    requires InRange(p)
    requires !from.attr.solid && !from.attr.vgrad && !from.attr.hgrad
    ensures var attr := Classify(from, to);
            var b := BoxAt(from.(attr := attr), to, p);
            && b.attr == attr && Honest(b)
            && (attr.solid || attr.vgrad || attr.hgrad ==> SameColours(b, from))
  {
    if from.ul == to.ul && from.ll == to.ll && from.ur == to.ur && from.lr == to.lr {
      MixColorSame(from.ul, p);
      MixColorSame(from.ur, p);
      MixColorSame(from.ll, p);
      MixColorSame(from.lr, p);
    }
  }

  /** An interpolated box begins as its first end and becomes the second, with the attributes of
      the first. */
  lemma BoxAtEnds(from: Box, to: Box)
    ensures BoxAt(from, to, 0) == from
    ensures BoxAt(from, to, PROGRESS_MAX) == to.(attr := from.attr)
  {
    InterpolateStaysInBound(from.re, to.re, 0);
    hide Mix;
    forall v: byte, w: byte ensures Mix(v, w, 0) == v && Mix(v, w, PROGRESS_MAX) == w {
      MixBounds(v, w, 0);
    }
  }

  // --------------------------------------------------------------------- colours

  /** Four components of the ends of a row, before they are narrowed to bytes. */
  datatype Quad = Quad(r: int, g: int, b: int, a: int)

  function Width(b: Box): int { b.re.x2 - b.re.x1 + 1 }

  /** The divisor of the vertical interpolation; a one-pixel-high box uses 1. */
  function Rise(b: Box): int
    ensures Rise(b) > 0
  {
    if b.re.y2 - b.re.y1 + 1 > 1 then b.re.y2 - b.re.y1 else 1
  }

  function Vertical(b: Box, y: int, top: int, bottom: int): int
  {
    CDiv((b.re.y2 - y) * top + (y - b.re.y1) * bottom, Rise(b))
  }

  function LeftEnd(b: Box, y: int): Quad
  {
    Quad(Vertical(b, y, b.ul.r, b.ll.r), Vertical(b, y, b.ul.g, b.ll.g),
         Vertical(b, y, b.ul.b, b.ll.b), Vertical(b, y, b.ul.a, b.ll.a))
  }

  function RightEnd(b: Box, y: int): Quad
  {
    Quad(Vertical(b, y, b.ur.r, b.lr.r), Vertical(b, y, b.ur.g, b.lr.g),
         Vertical(b, y, b.ur.b, b.lr.b), Vertical(b, y, b.ur.a, b.lr.a))
  }

  function Slope(v1: int, v2: int, w: int): real
    requires w > 0
  {
    1.0 / (w as real) * ((v2 - v1) as real)
  }

  /** The value the horizontal accumulator has after k additions, in exact arithmetic. */
  function Ramp(v1: int, v2: int, w: int, k: int): real
    requires w > 0
  {
    v1 as real + Slope(v1, v2, w) * (k as real)
  }

  lemma RampStep(v1: int, v2: int, w: int, k: int)
    requires w > 0
    ensures Ramp(v1, v2, w, k) + Slope(v1, v2, w) == Ramp(v1, v2, w, k + 1)
  {
  }

  /** The cast to an unsigned byte. */
  function ToByte(v: int): byte { v % 256 }

  function QuadColor(q: Quad): Color {
    Color(ToByte(q.r), ToByte(q.g), ToByte(q.b), ToByte(q.a))
  }

  function RampColor(l: Quad, r: Quad, w: int, k: int): Color
    requires w > 0
  {
    Color(ToByte(Ramp(l.r, r.r, w, k).Floor), ToByte(Ramp(l.g, r.g, w, k).Floor),
          ToByte(Ramp(l.b, r.b, w, k).Floor), ToByte(Ramp(l.a, r.a, w, k).Floor))
  }

  /** box_render: the colour a box has at a pixel. */
  function BoxColor(b: Box, x: int, y: int): Color
  {
    if b.attr.solid then b.ul
    else
      var l, r := LeftEnd(b, y), RightEnd(b, y);
      if l == r then QuadColor(l) else RampColor(l, r, Width(b), x - b.re.x1 + 1)
  }

  /** One pixel of box_render; the opacity argument of the source plays no part. */
  function InkBox(b: Box, x: int, y: int, p: Pixel): Pixel
  {
    var c := BoxColor(b, x, y);
    Over(p, c.a, c.r, c.g, c.b)
  }

  lemma ConvexDiv(top: int, bottom: int, h1: int, h2: int)
    requires h1 >= 0 && h2 >= 0 && h1 + h2 > 0
    ensures Min(top, bottom) <= CDiv(h1 * top + h2 * bottom, h1 + h2) <= Max(top, bottom)
  {
    hide CDiv;
    var lo, hi, h := Min(top, bottom), Max(top, bottom), h1 + h2;
    MulMonotone(lo, top, h1);
    MulMonotone(top, hi, h1);
    MulMonotone(lo, bottom, h2);
    MulMonotone(bottom, hi, h2);
    assert lo * h == lo * h1 + lo * h2 && hi * h == hi * h1 + hi * h2;
    assert h1 * top == top * h1 && h2 * bottom == bottom * h2;
    CDivMonotone(lo * h, h1 * top + h2 * bottom, h);
    CDivMonotone(h1 * top + h2 * bottom, hi * h, h);
    CDivExact(lo, h);
    CDivExact(hi, h);
  }

  lemma VerticalBetween(b: Box, y: int, top: byte, bottom: byte)
    requires b.re.y1 <= y <= b.re.y2 && b.re.y1 < b.re.y2
    ensures Min(top, bottom) <= Vertical(b, y, top, bottom) <= Max(top, bottom)
  {
    hide CDiv;
    ConvexDiv(top, bottom, b.re.y2 - y, y - b.re.y1);
  }

  lemma Share(k: int, w: int)
    requires w > 0 && 0 <= k <= w
    ensures 0.0 <= k as real / w as real <= 1.0
  {
  }

  lemma ProductReal(a: real, b: real)
    requires a >= 0.0 && b >= 0.0
    ensures a * b >= 0.0
  {
  }

  lemma ScaleReal(d: real, q: real)
    requires 0.0 <= q <= 1.0
    ensures d >= 0.0 ==> 0.0 <= d * q <= d
    ensures d <= 0.0 ==> d <= d * q <= 0.0
  {
    var e := if d >= 0.0 then d else -d;
    ProductReal(e, q);
    ProductReal(e, 1.0 - q);
    assert e * (1.0 - q) == e - e * q;
    assert d < 0.0 ==> d * q == -(e * q);
  }

  lemma RampIsShare(v1: int, v2: int, w: int, k: int)
    requires w > 0
    ensures Ramp(v1, v2, w, k) == v1 as real + (v2 - v1) as real * (k as real / w as real)
  {
  }

  lemma RampBetween(v1: int, v2: int, w: int, k: int)
    requires w > 0 && 0 <= k <= w
    ensures Min(v1, v2) <= Ramp(v1, v2, w, k).Floor <= Max(v1, v2)
  {
    RampIsShare(v1, v2, w, k);
    Share(k, w);
    hide Ramp;
    ScaleReal((v2 - v1) as real, k as real / w as real);
  }

  predicate BetweenCorners(v: int, ul: byte, ur: byte, ll: byte, lr: byte) {
    Min(Min(ul, ll), Min(ur, lr)) <= v <= Max(Max(ul, ll), Max(ur, lr))
  }

  lemma ComponentInRange(b: Box, x: int, y: int, ul: byte, ur: byte, ll: byte, lr: byte)
    requires Has(b.re, x, y) && b.re.y1 < b.re.y2
    ensures var v1, v2 := Vertical(b, y, ul, ll), Vertical(b, y, ur, lr);
            var v := Ramp(v1, v2, Width(b), x - b.re.x1 + 1).Floor;
            BetweenCorners(ToByte(v1), ul, ur, ll, lr) && BetweenCorners(ToByte(v), ul, ur, ll, lr)
  {
    hide Vertical, Ramp;
    VerticalBetween(b, y, ul, ll);
    VerticalBetween(b, y, ur, lr);
    RampBetween(Vertical(b, y, ul, ll), Vertical(b, y, ur, lr), Width(b), x - b.re.x1 + 1);
  }

  /** Inside a box more than one pixel high no component leaves the range of the corner
      components, so the narrowing to bytes loses nothing. */
  lemma GradientInRange(b: Box, x: int, y: int)
    requires Has(b.re, x, y) && b.re.y1 < b.re.y2 && !b.attr.solid
    ensures var c := BoxColor(b, x, y);
            && BetweenCorners(c.r, b.ul.r, b.ur.r, b.ll.r, b.lr.r)
            && BetweenCorners(c.g, b.ul.g, b.ur.g, b.ll.g, b.lr.g)
            && BetweenCorners(c.b, b.ul.b, b.ur.b, b.ll.b, b.lr.b)
            && BetweenCorners(c.a, b.ul.a, b.ur.a, b.ll.a, b.lr.a)
  {
    hide Vertical, Ramp, ToByte, BetweenCorners;
    ComponentInRange(b, x, y, b.ul.r, b.ur.r, b.ll.r, b.lr.r);
    ComponentInRange(b, x, y, b.ul.g, b.ur.g, b.ll.g, b.lr.g);
    ComponentInRange(b, x, y, b.ul.b, b.ur.b, b.ll.b, b.lr.b);
    ComponentInRange(b, x, y, b.ul.a, b.ur.a, b.ll.a, b.lr.a);
  }

  /** The value of a row end is the share of the way down, between two corners. */
  predicate EndShare(b: Box, y: int, q: Quad, top: Color, bottom: Color) {
    var d, e, h := b.re.y2 - y, y - b.re.y1, b.re.y2 - b.re.y1;
    && IsQuotient(q.r, d * top.r + e * bottom.r, h) && IsQuotient(q.g, d * top.g + e * bottom.g, h)
    && IsQuotient(q.b, d * top.b + e * bottom.b, h) && IsQuotient(q.a, d * top.a + e * bottom.a, h)
  }

  lemma VerticalIsShare(b: Box, y: int, top: int, bottom: int)
    requires b.re.y1 < b.re.y2
    ensures IsQuotient(Vertical(b, y, top, bottom), (b.re.y2 - y) * top + (y - b.re.y1) * bottom, b.re.y2 - b.re.y1)
  {
    CDivIs((b.re.y2 - y) * top + (y - b.re.y1) * bottom, b.re.y2 - b.re.y1);
  }

  lemma EndsAreShares(b: Box, y: int)
    requires b.re.y1 < b.re.y2
    ensures EndShare(b, y, LeftEnd(b, y), b.ul, b.ll) && EndShare(b, y, RightEnd(b, y), b.ur, b.lr)
  {
    hide Vertical, IsQuotient;
    VerticalIsShare(b, y, b.ul.r, b.ll.r);
    VerticalIsShare(b, y, b.ul.g, b.ll.g);
    VerticalIsShare(b, y, b.ul.b, b.ll.b);
    VerticalIsShare(b, y, b.ul.a, b.ll.a);
    VerticalIsShare(b, y, b.ur.r, b.lr.r);
    VerticalIsShare(b, y, b.ur.g, b.lr.g);
    VerticalIsShare(b, y, b.ur.b, b.lr.b);
    VerticalIsShare(b, y, b.ur.a, b.lr.a);
  }

  /** v is the value k steps of w along a row from l to r, rounded down. */
  predicate RowShare(v: int, l: int, r: int, k: int, w: int) {
    v * w <= l * (w - k) + r * k < v * w + w
  }

  lemma RampIsRowShare(l: int, r: int, w: int, k: int)
    requires w > 0
    ensures RowShare(Ramp(l, r, w, k).Floor, l, r, k, w)
  {
    var v := Ramp(l, r, w, k).Floor;
    var n := l * (w - k) + r * k;
    RampScaled(l, r, w, k);
    FloorScaled(Ramp(l, r, w, k), v, n, w);
  }

  lemma RampScaled(l: int, r: int, w: int, k: int)
    requires w > 0
    ensures Ramp(l, r, w, k) * (w as real) == (l * (w - k) + r * k) as real
  {
    RampIsShare(l, r, w, k);
    hide Ramp;
    var f, d := k as real / w as real, (r - l) as real;
    assert f * (w as real) == k as real;
    assert (l as real + d * f) * (w as real) == l as real * (w as real) + d * (f * (w as real));
    assert l * (w - k) + r * k == l * w + (r - l) * k;
  }

  lemma FloorOfShare(k: int, r: int, w: int)
    requires 0 <= r < w
    ensures (k as real + r as real / w as real).Floor == k
  {
    assert 0.0 <= r as real / w as real < 1.0;
  }

  lemma RealQuotient(q: real, n: int, k: int, r: int, w: int)
    requires w > 0 && q * (w as real) == n as real && n == k * w + r
    ensures q == k as real + r as real / w as real
  {
    var u := w as real;
    assert n as real == k as real * u + r as real;
    assert (q - k as real) * u == r as real;
    assert q - k as real == r as real / u;
  }

  lemma FloorScaled(q: real, v: int, n: int, w: int)
    requires w > 0 && v == q.Floor && q * (w as real) == n as real
    ensures v * w <= n < v * w + w
  {
    var k, r := n / w, n % w;
    assert n == k * w + r;
    RealQuotient(q, n, k, r, w);
    FloorOfShare(k, r, w);
  }

  /** The colour lies k steps of w along the row between two row ends. */
  predicate ColourInRow(c: Color, l: Quad, r: Quad, k: int, w: int) {
    RowShare(c.r, l.r, r.r, k, w) && RowShare(c.g, l.g, r.g, k, w) && RowShare(c.b, l.b, r.b, k, w) && RowShare(c.a, l.a, r.a, k, w)
  }

  lemma ComponentInRow(b: Box, x: int, y: int, ul: byte, ur: byte, ll: byte, lr: byte)
    requires Has(b.re, x, y) && b.re.y1 < b.re.y2
    ensures var l, r, k := Vertical(b, y, ul, ll), Vertical(b, y, ur, lr), x - b.re.x1 + 1;
            && RowShare(ToByte(Ramp(l, r, Width(b), k).Floor), l, r, k, Width(b))
            && (l == r ==> RowShare(ToByte(l), l, r, k, Width(b)))
  {
    var l, r, k := Vertical(b, y, ul, ll), Vertical(b, y, ur, lr), x - b.re.x1 + 1;
    VerticalBetween(b, y, ul, ll);
    VerticalBetween(b, y, ur, lr);
    RampBetween(l, r, Width(b), k);
    RampIsRowShare(l, r, Width(b), k);
    hide Ramp, Vertical;
    assert l * (Width(b) - k) + l * k == l * Width(b);
  }

  /** The colour of every pixel of a gradient: first between the corners of each side, as far down
      as the row is, then between the two sides, one step further than the column. */
  lemma GradientIsShare(b: Box, x: int, y: int) returns (l: Quad, r: Quad)
    requires Has(b.re, x, y) && b.re.y1 < b.re.y2 && !b.attr.solid
    ensures EndShare(b, y, l, b.ul, b.ll) && EndShare(b, y, r, b.ur, b.lr)
    ensures ColourInRow(BoxColor(b, x, y), l, r, x - b.re.x1 + 1, b.re.x2 - b.re.x1 + 1)
  {
    hide Vertical, Ramp, RowShare, EndShare, ToByte;
    l, r := LeftEnd(b, y), RightEnd(b, y);
    EndsAreShares(b, y);
    ComponentInRow(b, x, y, b.ul.r, b.ur.r, b.ll.r, b.lr.r);
    ComponentInRow(b, x, y, b.ul.g, b.ur.g, b.ll.g, b.lr.g);
    ComponentInRow(b, x, y, b.ul.b, b.ur.b, b.ll.b, b.lr.b);
    ComponentInRow(b, x, y, b.ul.a, b.ur.a, b.ll.a, b.lr.a);
  }

  /** A box blends its colour over a pixel; a solid box has that of its upper left corner. */
  lemma BoxBlends(b: Box, x: int, y: int, p: Pixel)
    ensures var c := BoxColor(b, x, y);
            Blended(p, c.a, c.r, c.g, c.b, InkBox(b, x, y, p)) && (b.attr.solid ==> c == b.ul)
  {
    hide Over, Blended, Vertical, Ramp;
    var c := BoxColor(b, x, y);
    OverIsBlended(p, c.a, c.r, c.g, c.b);
  }

  lemma RampEnd(v1: int, v2: int, w: int)
    requires w > 0
    ensures Ramp(v1, v2, w, w).Floor == v2
  {
    var d := (v2 - v1) as real;
    assert 1.0 / (w as real) * d * (w as real) == d;
  }

  lemma VerticalEnds(b: Box, top: byte, bottom: byte)
    requires b.re.y1 < b.re.y2
    ensures Vertical(b, b.re.y1, top, bottom) == top && Vertical(b, b.re.y2, top, bottom) == bottom
  {
    hide CDiv;
    var h := Rise(b);
    CDivExact(top, h);
    CDivExact(bottom, h);
    WeightEnds(h, top, bottom);
  }

  lemma WeightEnds(h: int, top: int, bottom: int)
    ensures h * top + 0 * bottom == top * h && 0 * top + h * bottom == bottom * h
  {
  }

  lemma RowEnds(b: Box)
    requires b.re.y1 < b.re.y2
    ensures LeftEnd(b, b.re.y1) == Quad(b.ul.r, b.ul.g, b.ul.b, b.ul.a)
    ensures LeftEnd(b, b.re.y2) == Quad(b.ll.r, b.ll.g, b.ll.b, b.ll.a)
    ensures RightEnd(b, b.re.y1) == Quad(b.ur.r, b.ur.g, b.ur.b, b.ur.a)
    ensures RightEnd(b, b.re.y2) == Quad(b.lr.r, b.lr.g, b.lr.b, b.lr.a)
  {
    hide Vertical;
    VerticalEnds(b, b.ul.r, b.ll.r);
    VerticalEnds(b, b.ul.g, b.ll.g);
    VerticalEnds(b, b.ul.b, b.ll.b);
    VerticalEnds(b, b.ul.a, b.ll.a);
    VerticalEnds(b, b.ur.r, b.lr.r);
    VerticalEnds(b, b.ur.g, b.lr.g);
    VerticalEnds(b, b.ur.b, b.lr.b);
    VerticalEnds(b, b.ur.a, b.lr.a);
  }

  lemma LastInRow(l: Quad, r: Quad, w: int)
    requires w > 0
    ensures RampColor(l, r, w, w) == QuadColor(r)
  {
    hide Ramp;
    RampEnd(l.r, r.r, w);
    RampEnd(l.g, r.g, w);
    RampEnd(l.b, r.b, w);
    RampEnd(l.a, r.a, w);
  }

  lemma SameColour(c: Color)
    ensures QuadColor(Quad(c.r, c.g, c.b, c.a)) == c
  {
  }

  /** A gradient meets its right-hand corners exactly.  On the left it is already one step in,
      because the step is added before a pixel is drawn. */
  lemma GradientMeetsCorners(b: Box)
    requires b.re.y1 < b.re.y2 && !b.attr.solid
    ensures BoxColor(b, b.re.x2, b.re.y1) == b.ur && BoxColor(b, b.re.x2, b.re.y2) == b.lr
    ensures b.ul == b.ur ==> BoxColor(b, b.re.x1, b.re.y1) == b.ul
    ensures b.ll == b.lr ==> BoxColor(b, b.re.x1, b.re.y2) == b.ll
  {
    hide LeftEnd, RightEnd, RampColor, QuadColor;
    RowEnds(b);
    SameColour(b.ur);
    SameColour(b.lr);
    LastInRow(LeftEnd(b, b.re.y1), RightEnd(b, b.re.y1), Width(b));
    LastInRow(LeftEnd(b, b.re.y2), RightEnd(b, b.re.y2), Width(b));
  }

  lemma ThinRow(b: Box, y: int, top: byte, bottom: byte)
    requires b.re.y1 == y == b.re.y2
    ensures Vertical(b, y, top, bottom) == 0
  {
  }

  /** A gradient box that is one pixel high draws nothing at all: both weights of its only row
      are zero, and so is its alpha. */
  lemma ThinGradientIsInvisible(b: Box, x: int, y: int, p: Pixel)
    requires Has(b.re, x, y) && b.re.y1 == b.re.y2 && !b.attr.solid
    ensures InkBox(b, x, y, p) == p
  {
    hide Vertical, Blend;
    ThinRow(b, y, b.ul.r, b.ll.r);
    ThinRow(b, y, b.ul.g, b.ll.g);
    ThinRow(b, y, b.ul.b, b.ll.b);
    ThinRow(b, y, b.ul.a, b.ll.a);
    ThinRow(b, y, b.ur.r, b.lr.r);
    ThinRow(b, y, b.ur.g, b.lr.g);
    ThinRow(b, y, b.ur.b, b.lr.b);
    ThinRow(b, y, b.ur.a, b.lr.a);
  }

  /** A colour can be seen on some pixel if and only if its alpha is not zero. */
  lemma ColourShowsIff(c: Color)
    ensures c.a > 0 <==> exists p: Pixel :: Over(p, c.a, c.r, c.g, c.b) != p
  {
    var s: byte := if c.r < 255 then 255 else 0;
    var p := Pixel(s, c.g, c.b, 0);
    if c.a > 0 {
      assert Over(p, c.a, c.r, c.g, c.b).r != p.r by { BlendMoves(c.r, c.a); }
    }
  }

  lemma BlendMoves(c: byte, a: byte)
    requires a > 0
    ensures c < 255 ==> Blend(255, c, a) < 255
    ensures c == 255 ==> Blend(0, c, a) > 0
  {
    if c < 255 {
      MulMonotone(1, a, 255 - c);
      assert 255 * (255 - a) + c * a == 255 * 255 - (255 - c) * a;
    } else {
      DivExact(a, 255);
    }
  }

  /** A row whose right end is transparent shows something only left of it, where the share of
      the left end still reaches one. */
  lemma FadingRow(l: int, w: int, k: int)
    requires w > 0 && 1 <= k <= w && l >= 0
    ensures Ramp(l, 0, w, k).Floor >= 0
    ensures l <= 1 || k == w ==> Ramp(l, 0, w, k).Floor == 0
    ensures l >= 2 && w >= 2 ==> Ramp(l, 0, w, 1).Floor >= 1
  {
    RampBetween(l, 0, w, k);
    RampEnd(l, 0, w);
    RampBetween(l, 0, w, 1);
    hide Ramp;
    RampIsShare(l, 0, w, k);
    RampIsShare(l, 0, w, 1);
    StrictShare(k, w);
    StrictShare(1, w);
    if l == 1 {
      assert Ramp(l, 0, w, k) == 1.0 - k as real / w as real;
    }
    if l >= 2 && w >= 2 {
      HalfReal(l as real, 1.0 / w as real);
    }
  }

  lemma StrictShare(k: int, w: int)
    requires w > 0 && 1 <= k <= w
    ensures 0.0 < k as real / w as real <= 1.0
    ensures w >= 2 && k == 1 ==> k as real / w as real <= 0.5
  {
  }

  lemma HalfReal(d: real, q: real)
    requires d >= 2.0 && q <= 0.5
    ensures d + (0.0 - d) * q >= 1.0
  {
    ProductReal(d - 2.0, 0.5 - q);
    assert (d - 2.0) * (0.5 - q) == 0.5 * d - d * q - 1.0 + 2.0 * q;
    ProductReal(d, 0.5 - q);
    assert d * (0.5 - q) == 0.5 * d - d * q;
    assert (0.0 - d) * q == -(d * q);
  }

  /** The alpha of a gradient whose right-hand corners are transparent. */
  lemma LeftAlpha(b: Box, x: int, y: int)
    requires Has(b.re, x, y) && b.re.y1 < b.re.y2 && !b.attr.solid && b.ur.a == 0 && b.lr.a == 0
    ensures var l := Vertical(b, y, b.ul.a, b.ll.a);
            && 0 <= l <= Max(b.ul.a, b.ll.a)
            && BoxColor(b, x, y).a == (if l == 0 then 0 else ToByte(Ramp(l, 0, Width(b), x - b.re.x1 + 1).Floor))
  {
    hide Vertical, Ramp;
    VerticalBetween(b, y, b.ul.a, b.ll.a);
    VerticalSame(b, y, 0);
    FadingRow(Vertical(b, y, b.ul.a, b.ll.a), Width(b), x - b.re.x1 + 1);
  }

  /** Exactly when a gradient box can be seen: it is more than one pixel high, and a right-hand
      corner is not transparent, or a left-hand corner has alpha two or more in a box of two
      columns or more. */
  predicate GradientShows(b: Box) {
    && b.re.y1 < b.re.y2
    && (b.ur.a > 0 || b.lr.a > 0 || (b.re.x1 < b.re.x2 && Max(b.ul.a, b.ll.a) >= 2))
  }

  lemma GradientShowsIff(b: Box)
    requires !b.attr.solid
    ensures GradientShows(b) <==> exists x: int, y: int, p: Pixel :: Has(b.re, x, y) && InkBox(b, x, y, p) != p
  {
    hide BoxColor, Over;
    if GradientShows(b) {
      var x, y := SeenAt(b);
      ColourShowsIff(BoxColor(b, x, y));
      var c := BoxColor(b, x, y);
      var p: Pixel :| Over(p, c.a, c.r, c.g, c.b) != p;
      assert InkBox(b, x, y, p) != p;
    } else {
      forall x: int, y: int, p: Pixel | Has(b.re, x, y) ensures InkBox(b, x, y, p) == p {
        if b.re.y1 < b.re.y2 {
          UnseenAt(b, x, y);
          ColourShowsIff(BoxColor(b, x, y));
        } else {
          ThinGradientIsInvisible(b, x, y, p);
        }
      }
    }
  }

  lemma SeenAt(b: Box) returns (x: int, y: int)
    requires GradientShows(b) && !b.attr.solid
    ensures Has(b.re, x, y) && BoxColor(b, x, y).a > 0
  {
    hide Vertical, Ramp, BoxColor;
    GradientMeetsCorners(b);
    if b.ur.a > 0 {
      x, y := b.re.x2, b.re.y1;
    } else if b.lr.a > 0 {
      x, y := b.re.x2, b.re.y2;
    } else {
      x, y := b.re.x1, if b.ul.a >= 2 then b.re.y1 else b.re.y2;
      VerticalEnds(b, b.ul.a, b.ll.a);
      LeftAlpha(b, x, y);
      FadingRow(Vertical(b, y, b.ul.a, b.ll.a), Width(b), 1);
      RampBetween(Vertical(b, y, b.ul.a, b.ll.a), 0, Width(b), 1);
    }
  }

  lemma UnseenAt(b: Box, x: int, y: int)
    requires !GradientShows(b) && !b.attr.solid && b.re.y1 < b.re.y2 && Has(b.re, x, y)
    ensures BoxColor(b, x, y).a == 0
  {
    hide Vertical, Ramp, BoxColor;
    LeftAlpha(b, x, y);
    FadingRow(Vertical(b, y, b.ul.a, b.ll.a), Width(b), x - b.re.x1 + 1);
  }

  // ------------------------------------------------------------- damage of a move

  /** The edge strips added when only the horizontal extent changes. */
  function StripsX(c: Rect, t: Rect): seq<Rect> {
    (if c.x1 != t.x1 then [Rect(Min(c.x1, t.x1), Max(c.x1, t.x1), t.y1, t.y2)] else [])
    + (if c.x2 != t.x2 then [Rect(Min(c.x2, t.x2), Max(c.x2, t.x2), t.y1, t.y2)] else [])
  }

  /** The edge strips added when only the vertical extent changes. */
  function StripsY(c: Rect, t: Rect): seq<Rect> {
    (if c.y1 != t.y1 then [Rect(t.x1, t.x2, Min(c.y1, t.y1), Max(c.y1, t.y1))] else [])
    + (if c.y2 != t.y2 then [Rect(t.x1, t.x2, Min(c.y2, t.y2), Max(c.y2, t.y2))] else [])
  }

  /** The strips have exactly the pixels between the old and the new place of an edge that moves. */
  lemma StripsXAreEdges(c: Rect, t: Rect, x: int, y: int)
    ensures Covered(StripsX(c, t), x, y) <==>
            t.y1 <= y <= t.y2
            && ((c.x1 != t.x1 && Min(c.x1, t.x1) <= x <= Max(c.x1, t.x1)) || (c.x2 != t.x2 && Min(c.x2, t.x2) <= x <= Max(c.x2, t.x2)))
  {
    var s := StripsX(c, t);
    assert c.x1 != t.x1 ==> s[0] == Rect(Min(c.x1, t.x1), Max(c.x1, t.x1), t.y1, t.y2);
    assert c.x2 != t.x2 ==> s[|s| - 1] == Rect(Min(c.x2, t.x2), Max(c.x2, t.x2), t.y1, t.y2);
  }

  lemma StripsYAreEdges(c: Rect, t: Rect, x: int, y: int)
    ensures Covered(StripsY(c, t), x, y) <==>
            t.x1 <= x <= t.x2
            && ((c.y1 != t.y1 && Min(c.y1, t.y1) <= y <= Max(c.y1, t.y1)) || (c.y2 != t.y2 && Min(c.y2, t.y2) <= y <= Max(c.y2, t.y2)))
  {
    var s := StripsY(c, t);
    assert c.y1 != t.y1 ==> s[0] == Rect(t.x1, t.x2, Min(c.y1, t.y1), Max(c.y1, t.y1));
    assert c.y2 != t.y2 ==> s[|s| - 1] == Rect(t.x1, t.x2, Min(c.y2, t.y2), Max(c.y2, t.y2));
  }

  /** A pixel that no strip covers is in both boxes or in neither. */
  lemma OutsideStripsX(c: Rect, t: Rect, x: int, y: int)
    requires Valid(c) && Valid(t) && c.y1 == t.y1 && c.y2 == t.y2
    requires !Covered(StripsX(c, t), x, y)
    ensures Has(c, x, y) <==> Has(t, x, y)
  {
    var s := StripsX(c, t);
    if c.x1 != t.x1 {
      assert s[0] == Rect(Min(c.x1, t.x1), Max(c.x1, t.x1), t.y1, t.y2);
    }
    if c.x2 != t.x2 {
      assert s[|s| - 1] == Rect(Min(c.x2, t.x2), Max(c.x2, t.x2), t.y1, t.y2);
    }
  }

  lemma OutsideStripsY(c: Rect, t: Rect, x: int, y: int)
    requires Valid(c) && Valid(t) && c.x1 == t.x1 && c.x2 == t.x2
    requires !Covered(StripsY(c, t), x, y)
    ensures Has(c, x, y) <==> Has(t, x, y)
    ensures Has(c, x, y) && c != t ==> c.y1 < c.y2 && t.y1 < t.y2
  {
    var s := StripsY(c, t);
    if c.y1 != t.y1 {
      assert s[0] == Rect(t.x1, t.x2, Min(c.y1, t.y1), Max(c.y1, t.y1));
    }
    if c.y2 != t.y2 {
      assert s[|s| - 1] == Rect(t.x1, t.x2, Min(c.y2, t.y2), Max(c.y2, t.y2));
    }
  }

  lemma VerticalSame(b: Box, y: int, v: byte)
    requires b.re.y1 < b.re.y2
    ensures Vertical(b, y, v, v) == v
  {
    assert (b.re.y2 - y) * v + (y - b.re.y1) * v == v * (b.re.y2 - b.re.y1);
    CDivExact(v, Rise(b));
  }

  /** A solid box or one with a purely vertical gradient that changes its horizontal extent only:
      every pixel whose colour changes lies in the strips. */
  lemma MoveAlongX(c: Box, t: Box, x: int, y: int, p: Pixel)
    requires c.re.y1 == t.re.y1 && c.re.y2 == t.re.y2
    requires c.attr == t.attr && SameColours(c, t) && Honest(t) && (t.attr.vgrad || t.attr.solid)
    requires !Covered(StripsX(c.re, t.re), x, y)
    ensures Has(c.re, x, y) <==> Has(t.re, x, y)
    ensures InkBox(c, x, y, p) == InkBox(t, x, y, p)
  {
    hide Over, CDiv, QuadColor;
    OutsideStripsX(c.re, t.re, x, y);
  }

  /** The same for a horizontal gradient and a change of the vertical extent.  The colours of a
      one-pixel-high box are special, but all its pixels then lie in a strip. */
  lemma MoveAlongY(c: Box, t: Box, x: int, y: int, p: Pixel)
    requires c.re.x1 == t.re.x1 && c.re.x2 == t.re.x2
    requires c.attr == t.attr && SameColours(c, t) && Honest(t) && (t.attr.hgrad || t.attr.solid)
    requires !Covered(StripsY(c.re, t.re), x, y)
    ensures Has(c.re, x, y) <==> Has(t.re, x, y)
    ensures Has(c.re, x, y) ==> InkBox(c, x, y, p) == InkBox(t, x, y, p)
  {
    OutsideStripsY(c.re, t.re, x, y);
    if Has(c.re, x, y) && c.re != t.re && !t.attr.solid {
      RowOfHorizontalGradient(c, y);
      RowOfHorizontalGradient(t, y);
    }
  }

  lemma RowOfHorizontalGradient(b: Box, y: int)
    requires b.re.y1 < b.re.y2 && b.ul == b.ll && b.ur == b.lr
    ensures LeftEnd(b, y) == Quad(b.ul.r, b.ul.g, b.ul.b, b.ul.a)
    ensures RightEnd(b, y) == Quad(b.ur.r, b.ur.g, b.ur.b, b.ur.a)
  {
    hide Vertical;
    VerticalSame(b, y, b.ul.r);
    VerticalSame(b, y, b.ul.g);
    VerticalSame(b, y, b.ul.b);
    VerticalSame(b, y, b.ul.a);
    VerticalSame(b, y, b.ur.r);
    VerticalSame(b, y, b.ur.g);
    VerticalSame(b, y, b.ur.b);
    VerticalSame(b, y, b.ur.a);
  }

  /** Marking a plain box as solid is a shortcut: it does not change what is drawn, as long as the
      box is more than one pixel high. */
  lemma SolidIsAShortcut(b: Box, x: int, y: int, p: Pixel)
    requires b.re.y1 < b.re.y2
    ensures InkBox(b.(attr := ClassifyPlain(b)), x, y, p) == InkBox(b, x, y, p)
  {
    hide Vertical, QuadColor, RampColor;
    if ClassifyPlain(b).solid && !b.attr.solid {
      RowOfHorizontalGradient(b, y);
      SameColour(b.ul);
    }
  }

  /** How far the strips reach into [t1, t2] from the left and from the right. */
  predicate StripsMeet(c1: int, c2: int, t1: int, t2: int) {
    var left := if c1 == t1 then t1 - 1 else Max(c1, t1);
    var right := if c2 == t2 then t2 + 1 else Min(c2, t2);
    left + 1 >= right
  }

  /** The strips cover the whole new box exactly when they meet. */
  lemma StripsXCoverAll(c: Rect, t: Rect)
    requires Valid(c) && Valid(t)
    ensures StripsMeet(c.x1, c.x2, t.x1, t.x2) <==>
            forall x, y :: Has(t, x, y) ==> Covered(StripsX(c, t), x, y)
  {
    var s := StripsX(c, t);
    var left := if c.x1 == t.x1 then t.x1 - 1 else Max(c.x1, t.x1);
    if StripsMeet(c.x1, c.x2, t.x1, t.x2) {
      forall x, y | Has(t, x, y) ensures Covered(s, x, y) {
        if x <= left {
          assert Has(s[0], x, y);
        } else {
          assert Has(s[|s| - 1], x, y);
        }
      }
    } else {
      assert Has(t, left + 1, t.y1);
      assert !Covered(s, left + 1, t.y1);
    }
  }

  lemma StripsYCoverAll(c: Rect, t: Rect)
    requires Valid(c) && Valid(t)
    ensures StripsMeet(c.y1, c.y2, t.y1, t.y2) <==>
            forall x, y :: Has(t, x, y) ==> Covered(StripsY(c, t), x, y)
  {
    var s := StripsY(c, t);
    var left := if c.y1 == t.y1 then t.y1 - 1 else Max(c.y1, t.y1);
    if StripsMeet(c.y1, c.y2, t.y1, t.y2) {
      forall x, y | Has(t, x, y) ensures Covered(s, x, y) {
        if y <= left {
          assert Has(s[0], x, y);
        } else {
          assert Has(s[|s| - 1], x, y);
        }
      }
    } else {
      assert Has(t, t.x1, left + 1);
      assert !Covered(s, t.x1, left + 1);
    }
  }
}
