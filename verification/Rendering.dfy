/**
  The pixel loops of core/src/render.c: blit, box_render, icon_render, and the clipping of
  obj_render.  A buffer has one row for each line of the screen.
 */
module Rendering {
  import opened Rects
  import opened Pixels
  import opened Boxes
  import opened Objects
  import opened Framebuffer

  predicate Before(x: int, y: int, x': int, y': int) {
    y < y' || (y == y' && x < x')
  }

  /** blit of a rectangle of the background picture to the same place. */
  method BlitBackground(bg: Bitmap, re: Rect, target: array2<Pixel>)
    requires |bg| == target.Length0 && forall y {:trigger bg[y]} :: 0 <= y < |bg| ==> |bg[y]| == target.Length1
    requires Inside(target.Length1, target.Length0, re)
    modifies target
    ensures forall y, x {:trigger target[y, x]} :: 0 <= y < target.Length0 && 0 <= x < target.Length1 ==>
              target[y, x] == if Has(re, x, y) then bg[y][x] else old(target[y, x])
  {
    var y := re.y1;
    while y <= re.y2
      invariant re.y1 <= y <= re.y2 + 1
      invariant forall v, u {:trigger target[v, u]} :: 0 <= v < target.Length0 && 0 <= u < target.Length1 ==>
                  target[v, u] == if Has(re, u, v) && v < y then bg[v][u] else old(target[v, u])
    {
      var x := re.x1;
      while x <= re.x2
        invariant re.x1 <= x <= re.x2 + 1
        invariant forall v, u {:trigger target[v, u]} :: 0 <= v < target.Length0 && 0 <= u < target.Length1 ==>
                    target[v, u] == if Has(re, u, v) && Before(u, v, x, y) then bg[v][u] else old(target[v, u])
      {
        target[y, x] := bg[y][x];
        x := x + 1;
      }
      y := y + 1;
    }
  }

  /** The running values of one row of box_render. */
  datatype Accumulator = Accumulator(r: real, g: real, b: real, a: real)

  function RowStart(l: Quad, rt: Quad, w: int, k: int): Accumulator
    requires w > 0
  {
    Accumulator(Ramp(l.r, rt.r, w, k), Ramp(l.g, rt.g, w, k), Ramp(l.b, rt.b, w, k), Ramp(l.a, rt.a, w, k))
  }

  function Slopes(l: Quad, rt: Quad, w: int): Accumulator
    requires w > 0
  {
    Accumulator(Slope(l.r, rt.r, w), Slope(l.g, rt.g, w), Slope(l.b, rt.b, w), Slope(l.a, rt.a, w))
  }

  function Advance(f: Accumulator, h: Accumulator): Accumulator {
    Accumulator(f.r + h.r, f.g + h.g, f.b + h.b, f.a + h.a)
  }

  function Floors(f: Accumulator): Color {
    Color(ToByte(f.r.Floor), ToByte(f.g.Floor), ToByte(f.b.Floor), ToByte(f.a.Floor))
  }

  lemma AdvanceIsRamp(l: Quad, rt: Quad, w: int, k: int)
    requires w > 0
    ensures Advance(RowStart(l, rt, w, k), Slopes(l, rt, w)) == RowStart(l, rt, w, k + 1)
    ensures Floors(RowStart(l, rt, w, k)) == RampColor(l, rt, w, k)
  {
    hide Ramp, Slope, ToByte;
    RampStep(l.r, rt.r, w, k);
    RampStep(l.g, rt.g, w, k);
    RampStep(l.b, rt.b, w, k);
    RampStep(l.a, rt.a, w, k);
  }

  /** One row of box_render: the accumulators start left of the clip and advance before each pixel. */
  method BoxRow(b: Box, re: Rect, y: int, target: array2<Pixel>)
    requires Inside(target.Length1, target.Length0, re) && re.y1 <= y <= re.y2
    modifies target
    ensures forall v, u {:trigger target[v, u]} :: 0 <= v < target.Length0 && 0 <= u < target.Length1 ==>
              target[v, u] == if v == y && re.x1 <= u <= re.x2 then InkBox(b, u, v, old(target[v, u])) else old(target[v, u])
  {
    hide LeftEnd, RightEnd, QuadColor, RampColor, RowStart, Slopes, Advance, Floors, Over;
    var w := Width(b);
    var c := b.ul;
    var opt := true;
    var l, rt := LeftEnd(b, y), RightEnd(b, y);
    var f, h := RowStart(l, rt, w, re.x1 - b.re.x1), Slopes(l, rt, w);
    if !b.attr.solid {
      opt := l == rt;
      c := QuadColor(l);
    }
    var x := re.x1;
    while x <= re.x2
      invariant re.x1 <= x <= re.x2 + 1
      invariant opt == (b.attr.solid || l == rt)
      invariant opt ==> c == if b.attr.solid then b.ul else QuadColor(l)
      invariant !opt ==> f == RowStart(l, rt, w, x - b.re.x1)
      invariant forall v, u {:trigger target[v, u]} :: 0 <= v < target.Length0 && 0 <= u < target.Length1 ==>
                  target[v, u] == if v == y && re.x1 <= u < x then InkBox(b, u, v, old(target[v, u])) else old(target[v, u])
    {
      if !opt {
        AdvanceIsRamp(l, rt, w, x - b.re.x1);
        AdvanceIsRamp(l, rt, w, x - b.re.x1 + 1);
        f := Advance(f, h);
        c := Floors(f);
      }
      assert c == BoxColor(b, x, y);
      target[y, x] := Over(target[y, x], c.a, c.r, c.g, c.b);
      x := x + 1;
    }
  }

  /** box_render */
  method BoxRender(b: Box, re: Rect, target: array2<Pixel>)
    requires Inside(target.Length1, target.Length0, re)
    modifies target
    ensures forall v, u {:trigger target[v, u]} :: 0 <= v < target.Length0 && 0 <= u < target.Length1 ==>
              target[v, u] == if Has(re, u, v) then InkBox(b, u, v, old(target[v, u])) else old(target[v, u])
  {
    hide InkBox;
    var y := re.y1;
    while y <= re.y2
      invariant re.y1 <= y <= re.y2 + 1
      invariant forall v, u {:trigger target[v, u]} :: 0 <= v < target.Length0 && 0 <= u < target.Length1 ==>
                  target[v, u] == if Has(re, u, v) && v < y then InkBox(b, u, v, old(target[v, u])) else old(target[v, u])
    {
      BoxRow(b, re, y, target);
      y := y + 1;
    }
  }

  /** icon_render: xi and yi walk the picture of the icon. */
  method IconRender(ix: int, iy: int, img: Img, opacity: byte, re: Rect, target: array2<Pixel>)
    requires Inside(target.Length1, target.Length0, re) && Contains(IconRect(ix, iy, img), re)
    modifies target
    ensures forall v, u {:trigger target[v, u]} :: 0 <= v < target.Length0 && 0 <= u < target.Length1 ==>
              target[v, u] == if Has(re, u, v) then InkIcon(ix, iy, img, opacity, u, v, old(target[v, u])) else old(target[v, u])
  {
    hide Over, Faded;
    var yi, hi := re.y1 - iy, re.y2 - iy + 1;
    var y := iy + yi;
    while yi < hi
      invariant y == iy + yi && re.y1 <= y <= re.y2 + 1
      invariant forall v, u {:trigger target[v, u]} :: 0 <= v < target.Length0 && 0 <= u < target.Length1 ==>
                  target[v, u] == if Has(re, u, v) && v < y then InkIcon(ix, iy, img, opacity, u, v, old(target[v, u])) else old(target[v, u])
    {
      IconRow(ix, iy, img, opacity, re, y, target);
      yi, y := yi + 1, y + 1;
    }
  }

  /** The alpha that rgba2fb passes on. */
  method Alpha(opacity: byte, a: byte) returns (r: byte)
    ensures r == Faded(opacity, a)
  {
    if opacity == 255 {
      r := a;
    } else {
      MulMonotone(0, opacity, a);
      MulMonotone(opacity, 255, a);
      r := opacity * a / 255;
    }
  }

  /** rgba2fb for one row of an icon. */
  method IconRow(ix: int, iy: int, img: Img, opacity: byte, re: Rect, y: int, target: array2<Pixel>)
    requires Inside(target.Length1, target.Length0, re) && Contains(IconRect(ix, iy, img), re)
    requires re.y1 <= y <= re.y2
    modifies target
    ensures forall v, u {:trigger target[v, u]} :: 0 <= v < target.Length0 && 0 <= u < target.Length1 ==>
              target[v, u] == if v == y && re.x1 <= u <= re.x2 then InkIcon(ix, iy, img, opacity, u, v, old(target[v, u])) else old(target[v, u])
  {
    hide Over;
    var xi := re.x1 - ix;
    for i := 0 to re.x2 - re.x1 + 1
      invariant forall v, u {:trigger target[v, u]} :: 0 <= v < target.Length0 && 0 <= u < target.Length1 ==>
                  target[v, u] == if v == y && re.x1 <= u < re.x1 + i then InkIcon(ix, iy, img, opacity, u, v, old(target[v, u])) else old(target[v, u])
    {
      var c := img.px[y - iy][xi + i];
      var a := Alpha(opacity, c.a);
      target[y, re.x1 + i] := Over(target[y, re.x1 + i], a, c.r, c.g, c.b);
    }
  }
}
