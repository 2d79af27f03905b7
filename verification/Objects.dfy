/**
  Theme objects as values: what an object looks like, what its prerender routine marks as
  damaged, and how its visibility changes (core/src/render.c; types from core/src/render.h).

  An object caches what it last prepared for drawing: its bounding rectangle, the current
  interpolated box, the current crop rectangle.  Rendering uses the cache; `Area` and `InkAt`
  say what the object should look like at a given progress value, without any cache.
 */
module Objects {
  import opened Rects
  import opened Pixels
  import opened Boxes

  datatype Option<+T> = None | Some(value: T)

  /** enum ESVC, without e_display, which is an icon without a service. */
  datatype SvcState =
    | InactiveStart | InactiveStop | Start | Started | Stop | Stopped | StopFailed | StartFailed

  /** A loaded picture with one RGBA colour for each pixel. */
  datatype Image = Image(w: nat, h: nat, px: seq<seq<Color>>) {
    predicate Valid() {
      w > 0 && h > 0 && |px| == h && forall y :: 0 <= y < h ==> |px[y]| == w
    }
  }

  type Img = i: Image | i.Valid() witness Image(1, 1, [[Color(0, 0, 0, 0)]])

  /** A service and the state in which the icon is shown. */
  datatype Trigger = Trigger(svc: string, ty: SvcState)

  datatype Shape =
    | PlainBox(box: Box)
    | InterBox(from: Box, to: Box)
    | PlainIcon(x: int, y: int, img: Img, on: Option<Trigger>)
    | CropIcon(x: int, y: int, img: Img, on: Option<Trigger>, cropFrom: VRect, cropTo: VRect)

  /** A duration in an unsigned 16-bit field. */
  type Millis = t: nat | t < 0x1_0000

  /** The fixed part of an object, set by the parser. */
  datatype Spec = Spec(shape: Shape, silent: bool, textbox: bool, blendin: Millis, blendout: Millis)

  /** The whole object.  curr matters for InterBox only, cropCurr for CropIcon only. */
  datatype Obj = Obj(
    spec: Spec, bnd: VRect, curr: Box, cropCurr: VRect,
    invalid: bool, visible: bool, opacity: byte, tstep: int, step: int, wait: int)

  // ------------------------------------------------------------------- drawing

  function Shift(r: Rect, dx: int, dy: int): Rect {
    Rect(r.x1 + dx, r.x2 + dx, r.y1 + dy, r.y2 + dy)
  }

  function IconRect(x: int, y: int, img: Img): VRect {
    Rect(x, x + img.w - 1, y, y + img.h - 1)
  }

  /** rgba2fb: the alpha of an icon pixel under the opacity of its object. */
  function Faded(opacity: byte, a: byte): byte {
    if opacity == 255 then a
    else
      MulMonotone(opacity, 255, a);
      MulMonotone(0, opacity, a);
      opacity * a / 255
  }

  lemma FadedForward(opacity: byte, opacity': byte, a: byte)
    requires opacity <= opacity'
    ensures Faded(opacity, a) <= Faded(opacity', a) <= a
    ensures Faded(0, a) == 0 && Faded(255, a) == a
  {
    MulMonotone(0, opacity, a);
    MulMonotone(opacity, opacity', a);
    MulMonotone(opacity', 255, a);
    DivMonotone(opacity * a, opacity' * a, 255);
    DivMonotone(opacity' * a, 255 * a, 255);
    DivExact(a, 255);
  }

  /** v' is at least as near to c as v is, coming from s. */
  predicate Nearer(s: byte, c: byte, v: byte, v': byte) {
    (s <= c ==> s <= v <= v' <= c) && (s >= c ==> s >= v >= v' >= c)
  }

  /** An icon at opacity 0 leaves the pixel alone, and more opacity brings every component
      nearer to the picture of the icon. */
  lemma IconFades(ix: int, iy: int, img: Img, x: int, y: int, p: Pixel, opacity: byte, opacity': byte)
    requires Has(IconRect(ix, iy, img), x, y) && opacity <= opacity'
    ensures InkIcon(ix, iy, img, 0, x, y, p) == p
    ensures var c := img.px[y - iy][x - ix];
            var q, q' := InkIcon(ix, iy, img, opacity, x, y, p), InkIcon(ix, iy, img, opacity', x, y, p);
            Nearer(p.r, c.r, q.r, q'.r) && Nearer(p.g, c.g, q.g, q'.g) && Nearer(p.b, c.b, q.b, q'.b) && q.pad == p.pad
  {
    hide Faded, Blend;
    var c := img.px[y - iy][x - ix];
    FadedForward(opacity, opacity', c.a);
    BlendForward(p.r, c.r, Faded(opacity, c.a), Faded(opacity', c.a));
    BlendForward(p.g, c.g, Faded(opacity, c.a), Faded(opacity', c.a));
    BlendForward(p.b, c.b, Faded(opacity, c.a), Faded(opacity', c.a));
  }

  /** One pixel of icon_render. */
  function InkIcon(ix: int, iy: int, img: Img, opacity: byte, x: int, y: int, p: Pixel): Pixel {
    if Has(IconRect(ix, iy, img), x, y) then
      var c := img.px[y - iy][x - ix];
      Over(p, Faded(opacity, c.a), c.r, c.g, c.b)
    else p
  }

  /** The opacity scales the alpha of the picture, rounded down. */
  lemma FadedIsShare(opacity: byte, a: byte)
    ensures IsQuotient(Faded(opacity, a), opacity * a, 255)
  {
    MulMonotone(0, opacity, a);
    if opacity == 255 {
      assert a * 255 <= opacity * a < a * 255 + 255;
    } else {
      DivIs(opacity * a, 255);
    }
  }

  /** An icon blends the colour of its own pixel, under the scaled alpha, and nothing outside its
      picture. */
  lemma IconBlends(ix: int, iy: int, img: Img, opacity: byte, x: int, y: int, p: Pixel)
    ensures var q := InkIcon(ix, iy, img, opacity, x, y, p);
            if ix <= x < ix + img.w && iy <= y < iy + img.h then
              var c := img.px[y - iy][x - ix];
              exists a: byte :: IsQuotient(a, opacity * c.a, 255) && Blended(p, a, c.r, c.g, c.b, q)
            else q == p
  {
    hide Over, Blended, Faded, IsQuotient;
    if Has(IconRect(ix, iy, img), x, y) {
      var c := img.px[y - iy][x - ix];
      FadedIsShare(opacity, c.a);
      OverIsBlended(p, Faded(opacity, c.a), c.r, c.g, c.b);
    }
  }

  /** One pixel of obj_render, from the cached state. */
  function Ink(o: Obj, x: int, y: int, p: Pixel): Pixel {
    match o.spec.shape
    case PlainBox(box) => InkBox(box, x, y, p)
    case InterBox(_, _) => InkBox(o.curr, x, y, p)
    case PlainIcon(ix, iy, img, _) => InkIcon(ix, iy, img, o.opacity, x, y, p)
    case CropIcon(ix, iy, img, _, _, _) => InkIcon(ix, iy, img, o.opacity, x, y, p)
  }

  /** What an object does to a pixel of a rectangle being rendered: invisible objects and objects
      of the other splash mode are skipped, and drawing is clipped to the bounding rectangle. */
  function Draw(o: Obj, x: int, y: int, p: Pixel): Pixel {
    if o.spec.silent && o.visible && Has(o.bnd, x, y) then Ink(o, x, y, p) else p
  }

  /** The objects drawn in list order over a background pixel. */
  function Compose(objs: seq<Obj>, x: int, y: int, p: Pixel): Pixel {
    if objs == [] then p else Draw(objs[|objs| - 1], x, y, Compose(objs[..|objs| - 1], x, y, p))
  }

  // ----------------------------------------------------- the cache-free reference

  /** The rectangle an object should occupy at progress p. */
  function Area(s: Shape, p: int): VRect
    requires InRange(p)
  {
    match s
    case PlainBox(box) => box.re
    case InterBox(from, to) => BoxAt(from, to, p).re
    case PlainIcon(x, y, img, _) => IconRect(x, y, img)
    case CropIcon(x, y, img, _, from, to) =>
      InterpolateStaysInBound(from, to, p);
      Shift(Interpolate(from, to, p), x, y)
  }

  function InkAt(s: Shape, opacity: byte, p: int, x: int, y: int, px: Pixel): Pixel
    requires InRange(p)
  {
    match s
    case PlainBox(box) => InkBox(box, x, y, px)
    case InterBox(from, to) => InkBox(BoxAt(from, to, p), x, y, px)
    case PlainIcon(ix, iy, img, _) => InkIcon(ix, iy, img, opacity, x, y, px)
    case CropIcon(ix, iy, img, _, _, _) => InkIcon(ix, iy, img, opacity, x, y, px)
  }

  function DrawAt(o: Obj, p: int, x: int, y: int, px: Pixel): Pixel
    requires InRange(p)
  {
    if o.spec.silent && o.visible && Has(Area(o.spec.shape, p), x, y)
    then InkAt(o.spec.shape, o.opacity, p, x, y, px) else px
  }

  /** The full composition of the visible objects at progress p: of an object's mutable state
      it uses visibility and opacity only. */
  function Reference(objs: seq<Obj>, p: int, x: int, y: int, px: Pixel): Pixel
    requires InRange(p)
  {
    if objs == [] then px
    else DrawAt(objs[|objs| - 1], p, x, y, Reference(objs[..|objs| - 1], p, x, y, px))
  }

  /** Where an object is: plain ones where the theme has put them, the others where the progress
      says. */
  lemma AreaIsShare(s: Shape, p: int)
    requires InRange(p)
    ensures var r := Area(s, p);
            match s
            case PlainBox(box) => r == box.re
            case InterBox(from, to) => RectShare(r, from.re, to.re, p)
            case PlainIcon(x, y, img, _) => forall u, v :: Has(r, u, v) <==> x <= u < x + img.w && y <= v < y + img.h
            case CropIcon(x, y, _, _, from, to) => RectShare(Rect(r.x1 - x, r.x2 - x, r.y1 - y, r.y2 - y), from, to, p)
  {
    hide Interpolate, IsQuotient;
    match s
    case InterBox(from, to) =>
      BoxIsShare(from, to, p);
    case CropIcon(_, _, _, _, from, to) =>
      InterpolateStaysInBound(from, to, p);
      InterpolateIsShare(from, to, p);
    case _ =>
  }

  /** An object of the other splash mode, an invisible one, and one that is elsewhere leave a pixel
      alone; any other box blends the colour of the progress there, and any other icon that of its
      picture under its opacity. */
  lemma DrawAtBlends(o: Obj, p: int, x: int, y: int, px: Pixel)
    requires InRange(p)
    ensures var q := DrawAt(o, p, x, y, px);
            if !o.spec.silent || !o.visible || !Has(Area(o.spec.shape, p), x, y) then q == px
            else
              match o.spec.shape
              case PlainBox(box) => var c := BoxColor(box, x, y); Blended(px, c.a, c.r, c.g, c.b, q)
              case InterBox(from, to) => var c := BoxColor(BoxAt(from, to, p), x, y); Blended(px, c.a, c.r, c.g, c.b, q)
              case PlainIcon(ix, iy, img, _) => q == InkIcon(ix, iy, img, o.opacity, x, y, px)
              case CropIcon(ix, iy, img, _, _, _) => q == InkIcon(ix, iy, img, o.opacity, x, y, px)
  {
    hide BoxColor, Blended, Over, Area;
    match o.spec.shape
    case PlainBox(box) => BoxBlends(box, x, y, px);
    case InterBox(from, to) => BoxBlends(BoxAt(from, to, p), x, y, px);
    case _ =>
  }

  /** Objects later in the list are drawn over earlier ones: the last one there that is opaque
      decides the pixel. */
  lemma {:induction false} LastOpaqueShows(objs: seq<Obj>, i: nat, p: int, x: int, y: int, px: Pixel, c: Color)
    requires InRange(p) && i < |objs| && c.a == 255
    requires forall q :: DrawAt(objs[i], p, x, y, q) == Over(q, c.a, c.r, c.g, c.b)
    requires forall j, q :: i < j < |objs| ==> DrawAt(objs[j], p, x, y, q) == q
    ensures Reference(objs, p, x, y, px) == Pixel(c.r, c.g, c.b, px.pad)
    decreases |objs|
  {
    hide DrawAt, Blend;
    var n := |objs| - 1;
    if i < n {
      LastOpaqueShows(objs[..n], i, p, x, y, px, c);
    } else {
      PadStays(objs[..n], p, x, y, px);
    }
  }

  lemma {:induction false} PadStays(objs: seq<Obj>, p: int, x: int, y: int, px: Pixel)
    requires InRange(p)
    ensures Reference(objs, p, x, y, px).pad == px.pad
    decreases |objs|
  {
    hide Area, Blend, BoxColor, BoxAt;
    if objs != [] {
      PadStays(objs[..|objs| - 1], p, x, y, px);
    }
  }

  // ------------------------------------------------------------------ prerender

  /** What the comparison of box structures at line 406 finds: the structures also hold pointers
      that box_interpolate does not set, so `padsEqual` is an unknown input. */
  predicate Unchanged(t: Box, curr: Box, padsEqual: bool) {
    t == curr && padsEqual
  }

  /** The guard of the branch for a change of the horizontal extent. */
  predicate OnlyXMoves(attr: Attr, c: Rect, t: Rect) {
    (attr.vgrad || attr.solid) && c.y1 == t.y1 && c.y2 == t.y2
  }

  predicate OnlyYMoves(attr: Attr, c: Rect, t: Rect) {
    (attr.hgrad || attr.solid) && c.x1 == t.x1 && c.x2 == t.x2
  }

  /** obj_prerender for a visible object: its new state and the rectangles given to blit_add. */
  function Prerender(o: Obj, p: int, force: bool, padsEqual: bool): (Obj, seq<Rect>)
    requires InRange(p)
  {
    match o.spec.shape
    case PlainBox(_) => (o, [o.bnd])
    case PlainIcon(_, _, _, _) => (o, [o.bnd])
    case InterBox(from, to) =>
      var t := BoxAt(from, to, p);
      var o' := o.(curr := t, bnd := t.re);
      if Unchanged(t, o.curr, padsEqual) && !force then (o, [])
      else if OnlyXMoves(from.attr, o.curr.re, t.re) && !force then (o', StripsX(o.curr.re, t.re))
      else if OnlyYMoves(from.attr, o.curr.re, t.re) && !force then (o', StripsY(o.curr.re, t.re))
      else (o', (if t.re != o.bnd then [o.bnd] else []) + [t.re])
    case CropIcon(x, y, _, _, from, to) =>
      InterpolateStaysInBound(from, to, p);
      var crn: VRect := Interpolate(from, to, p);
      if crn == o.cropCurr && !force then (o, [])
      else (o.(cropCurr := crn, bnd := Shift(crn, x, y)), [o.bnd, Shift(crn, x, y)])
  }

  /** The first pass of render_objs for one object. */
  function Mark(o: Obj, p: int, force: bool, padsEqual: bool): (Obj, seq<Rect>)
    requires InRange(p)
  {
    if !o.spec.silent || !o.invalid then (o, [])
    else if !o.visible then (o.(invalid := false), [])
    else
      var (o', d) := Prerender(o, p, force, padsEqual);
      (o'.(invalid := false), d)
  }

  // --------------------------------------------------------------- well-formedness

  function Screen(w: int, h: int): Rect { Rect(0, w - 1, 0, h - 1) }

  /** What parser and loader leave behind: honest attribute bits, crops inside the picture,
      objects that overlap the screen, and bounding rectangles cut to it. */
  predicate Fits(w: int, h: int, o: Obj) {
    match o.spec.shape
    case PlainBox(box) =>
      Intersects(box.re, Screen(w, h)) && o.bnd == Sanitize(w, h, box.re)
    case InterBox(from, to) =>
      Honest(from) && (from.attr.solid || from.attr.vgrad || from.attr.hgrad ==> SameColours(from, to))
    case PlainIcon(x, y, img, _) =>
      Intersects(IconRect(x, y, img), Screen(w, h)) && o.bnd == Sanitize(w, h, IconRect(x, y, img))
    case CropIcon(x, y, img, _, from, to) =>
      && Contains(IconRect(0, 0, img), from) && Contains(IconRect(0, 0, img), to)
      && Contains(IconRect(x, y, img), o.bnd)
  }

  /** The cache is consistent: the bounding rectangle belongs to the cached box or crop, and a
      cached box of a classified kind has the colours of that kind. */
  predicate Settled(o: Obj) {
    match o.spec.shape
    case PlainBox(_) => true
    case PlainIcon(_, _, _, _) => true
    case InterBox(from, to) =>
      && o.bnd == o.curr.re && o.curr.attr == from.attr
      && (from.attr.solid || from.attr.vgrad || from.attr.hgrad ==> SameColours(o.curr, from))
    case CropIcon(x, y, _, _, _, _) => o.bnd == Shift(o.cropCurr, x, y)
  }

  /** The cache belongs to progress p. */
  predicate Current(o: Obj, p: int)
    requires InRange(p)
  {
    match o.spec.shape
    case PlainBox(_) => true
    case PlainIcon(_, _, _, _) => true
    case InterBox(from, to) => o.curr == BoxAt(from, to, p)
    case CropIcon(_, _, _, _, from, to) => o.cropCurr == Interpolate(from, to, p)
  }

  /** Whether an incremental update of the object marks all of it: always for plain objects, for
      the others only if the interpolated rectangle or colours have moved far enough. */
  predicate RepaintsWhole(o: Obj, p: int, padsEqual: bool)
    requires InRange(p)
  {
    match o.spec.shape
    case PlainBox(_) => true
    case PlainIcon(_, _, _, _) => true
    case InterBox(from, to) =>
      var c, t := o.curr.re, BoxAt(from, to, p).re;
      && !Unchanged(BoxAt(from, to, p), o.curr, padsEqual)
      && (if OnlyXMoves(from.attr, c, t) then StripsMeet(c.x1, c.x2, t.x1, t.x2)
          else if OnlyYMoves(from.attr, c, t) then StripsMeet(c.y1, c.y2, t.y1, t.y2)
          else true)
    case CropIcon(_, _, _, _, from, to) => Interpolate(from, to, p) != o.cropCurr
  }

  // ---------------------------------------------------------------------- lemmas

  lemma ColoursStay(from: Box, to: Box, p: int)
    requires InRange(p) && Honest(from)
    requires from.attr.solid || from.attr.vgrad || from.attr.hgrad ==> SameColours(from, to)
    ensures var t := BoxAt(from, to, p);
            && Honest(t) && t.attr == from.attr
            && (from.attr.solid || from.attr.vgrad || from.attr.hgrad ==> SameColours(t, from))
  {
    if from.attr.solid || from.attr.vgrad || from.attr.hgrad {
      MixColorSame(from.ul, p);
      MixColorSame(from.ur, p);
      MixColorSame(from.ll, p);
      MixColorSame(from.lr, p);
    }
  }

  /** After its prerender routine has run, an object's cache is consistent and belongs to the
      current progress, unless an inconsistent cache was mistaken for an up-to-date one. */
  lemma PrerenderSettles(w: int, h: int, o: Obj, p: int, force: bool, padsEqual: bool)
    requires InRange(p) && Fits(w, h, o)
    requires force || Settled(o) || RepaintsWhole(o, p, padsEqual)
    ensures var o' := Prerender(o, p, force, padsEqual).0;
            && Fits(w, h, o') && Settled(o') && Current(o', p)
            && o'.spec == o.spec && o'.visible == o.visible && o'.opacity == o.opacity
  {
    hide BoxAt, Interpolate, StripsX, StripsY, Sanitize;
    PrerenderFits(w, h, o, p, force, padsEqual);
    match o.spec.shape
    case PlainBox(_) =>
    case PlainIcon(_, _, _, _) =>
    case InterBox(from, to) =>
      ColoursStay(from, to, p);
    case CropIcon(x, y, img, _, from, to) => InterpolateStaysInBound(from, to, p);
  }

  /** Fits survives the prerender routine whatever the state of the cache. */
  lemma PrerenderFits(w: int, h: int, o: Obj, p: int, force: bool, padsEqual: bool)
    requires InRange(p) && Fits(w, h, o)
    ensures Fits(w, h, Prerender(o, p, force, padsEqual).0)
  {
    hide BoxAt, Interpolate, StripsX, StripsY, Sanitize;
    match o.spec.shape
    case PlainBox(_) =>
    case PlainIcon(_, _, _, _) =>
    case InterBox(from, to) =>
    case CropIcon(x, y, img, _, from, to) => InterpolateStaysInBound(from, to, p);
  }

  /** The damage is enough: outside the marked rectangles an object with a consistent cache
      draws after its prerender routine exactly what it drew before. */
  lemma DamageIsEnough(w: int, h: int, o: Obj, p: int, padsEqual: bool, x: int, y: int, px: Pixel)
    requires InRange(p) && Fits(w, h, o) && Settled(o)
    requires !Covered(Prerender(o, p, false, padsEqual).1, x, y)
    ensures Draw(Prerender(o, p, false, padsEqual).0, x, y, px) == Draw(o, x, y, px)
  {
    hide InkBox, InkIcon;
    var (o', d) := Prerender(o, p, false, padsEqual);
    match o.spec.shape
    case PlainBox(_) =>
    case PlainIcon(_, _, _, _) =>
    case InterBox(from, to) =>
      ColoursStay(from, to, p);
      var t := BoxAt(from, to, p);
      if Unchanged(t, o.curr, padsEqual) {
      } else if OnlyXMoves(from.attr, o.curr.re, t.re) {
        MoveAlongX(o.curr, t, x, y, px);
      } else if OnlyYMoves(from.attr, o.curr.re, t.re) {
        MoveAlongY(o.curr, t, x, y, px);
      } else {
        assert d[|d| - 1] == t.re;
        assert t.re != o.bnd ==> d[0] == o.bnd;
      }
    case CropIcon(ix, iy, _, _, from, to) =>
      if o' != o {
        assert d[0] == o.bnd && d[1] == o'.bnd;
      }
  }

  /** Nothing is marked without need: every marked pixel lies in the bound of the old and the new
      rectangle. */
  lemma MarksOnlyNear(o: Obj, p: int, force: bool, padsEqual: bool, x: int, y: int)
    requires InRange(p) && Settled(o) && Covered(Prerender(o, p, force, padsEqual).1, x, y)
    ensures Has(Bound(o.bnd, Prerender(o, p, force, padsEqual).0.bnd), x, y)
  {
    hide BoxAt, Interpolate;
    match o.spec.shape
    case InterBox(from, to) =>
      var t := BoxAt(from, to, p);
      StripsXAreEdges(o.curr.re, t.re, x, y);
      StripsYAreEdges(o.curr.re, t.re, x, y);
    case CropIcon(_, _, _, _, from, to) => InterpolateStaysInBound(from, to, p);
    case _ =>
  }

  /** A forced prerender marks all of the object. */
  lemma ForcedMarksAll(o: Obj, p: int, padsEqual: bool, x: int, y: int)
    requires InRange(p) && Has(Prerender(o, p, true, padsEqual).0.bnd, x, y)
    ensures Covered(Prerender(o, p, true, padsEqual).1, x, y)
  {
    var (o', d) := Prerender(o, p, true, padsEqual);
    assert Has(d[|d| - 1], x, y);
  }

  /** An incremental prerender marks all of the object if and only if RepaintsWhole holds.  An
      interpolated box or cropped icon that has just become visible and fails this test is not
      drawn by the next incremental paint. */
  lemma MarksAllIff(o: Obj, p: int, padsEqual: bool)
    requires InRange(p)
    ensures RepaintsWhole(o, p, padsEqual) <==>
            var (o', d) := Prerender(o, p, false, padsEqual);
            forall x, y :: Has(o'.bnd, x, y) ==> Covered(d, x, y)
  {
    var (o', d) := Prerender(o, p, false, padsEqual);
    match o.spec.shape
    case PlainBox(_) => assert d[0] == o'.bnd;
    case PlainIcon(_, _, _, _) => assert d[0] == o'.bnd;
    case InterBox(from, to) =>
      var c, t := o.curr.re, BoxAt(from, to, p).re;
      if Unchanged(BoxAt(from, to, p), o.curr, padsEqual) {
        assert Has(o'.bnd, o'.bnd.x1, o'.bnd.y1);
      } else if OnlyXMoves(from.attr, c, t) {
        StripsXCoverAll(c, t);
      } else if OnlyYMoves(from.attr, c, t) {
        StripsYCoverAll(c, t);
      } else {
        assert d[|d| - 1] == t;
      }
    case CropIcon(ix, iy, _, _, from, to) =>
      if d == [] {
        assert Has(o'.bnd, o'.bnd.x1, o'.bnd.y1);
      } else {
        assert d[1] == o'.bnd;
      }
  }

  /** On screen, the cached drawing of a settled and current object is its reference drawing. */
  lemma CachedIsReference(w: int, h: int, o: Obj, p: int, x: int, y: int, px: Pixel)
    requires w > 0 && h > 0 && InRange(p) && OnScreen(w, h, x, y)
    requires Fits(w, h, o) && (o.spec.silent && o.visible ==> Settled(o) && Current(o, p))
    ensures Draw(o, x, y, px) == DrawAt(o, p, x, y, px)
  {
    hide InkBox, InkIcon;
    match o.spec.shape
    case PlainBox(box) => SanitizeExact(w, h, box.re);
    case PlainIcon(ix, iy, img, _) => SanitizeExact(w, h, IconRect(ix, iy, img));
    case InterBox(from, to) =>
    case CropIcon(ix, iy, img, _, from, to) =>
  }

  // ------------------------------------------------------------------- visibility

  /** obj_opacity_steps */
  function Steps(time: int): (n: int)
    ensures 10 <= n <= 255
  {
    if time < 500 then 10
    else
      var t := 20 * time / 1000;
      if t > 255 then 255 else t
  }

  /** One step for every 50 milliseconds, but at least ten and at most 255. */
  lemma StepsAre(time: int)
    ensures time < 500 ==> Steps(time) == 10
    ensures 500 <= time < 12800 ==> 50 * Steps(time) <= time < 50 * (Steps(time) + 1)
    ensures time >= 12800 ==> Steps(time) == 255
  {
  }

  /** obj_visibility_set: the new object, whether its bounding rectangle is marked, and whether
      it joins the list of fading objects. */
  function SetVisible(o: Obj, v: bool): (Obj, bool, bool) {
    if !v && o.visible then
      if o.spec.blendout > 0 then
        var n := Steps(o.spec.blendout);
        var ts := o.spec.blendout / n;
        (o.(tstep := ts, wait := ts, step := -(255 / n)), true, true)
      else (o.(visible := v), true, false)
    else if v && !o.visible then
      if o.spec.blendin > 0 then
        var n := Steps(o.spec.blendin);
        var ts := o.spec.blendin / n;
        (o.(opacity := 0, tstep := ts, wait := ts, step := 255 / n, visible := v), false, true)
      else (o.(visible := v), false, false)
    else (o, false, false)
  }

  /** The parameters of a fade: n steps, each of the n-th part of the opacity and of the time. */
  predicate FadesWith(o: Obj, time: int, up: bool) {
    var n := Steps(time);
    && IsQuotient(o.step, if up then 255 else -255, n)
    && IsQuotient(o.tstep, time, n) && o.wait == o.tstep
  }

  /** What obj_visibility_set does in each case: which fields change and to what, whether the
      rectangle is marked and whether the object is listed. */
  lemma SetVisibleIs(o: Obj, v: bool)
    ensures var (f, marked, listed) := SetVisible(o, v);
            && marked == (o.visible && !v)
            && listed == (o.visible != v && (if v then o.spec.blendin else o.spec.blendout) > 0)
            && f.visible == (v || (o.visible && o.spec.blendout > 0))
            && f.opacity == (if v && listed then 0 else o.opacity)
            && (if listed then FadesWith(f, if v then o.spec.blendin else o.spec.blendout, v)
                else f.tstep == o.tstep && f.step == o.step && f.wait == o.wait)
            && f == o.(visible := f.visible, opacity := f.opacity, tstep := f.tstep, step := f.step, wait := f.wait)
  {
    hide Steps, IsQuotient;
    var time := if v then o.spec.blendin else o.spec.blendout;
    CDivIs(255, Steps(time));
    CDivIs(-255, Steps(time));
    CDivIs(time, Steps(time));
  }

  // --------------------------------------------------------------------- loading

  /** What the loader needs from the configuration: boxes and pictures overlap the screen, crops lie
      inside the picture, and the attribute bits come from the parser's classification. */
  predicate Loadable(w: int, h: int, s: Shape) {
    match s
    case PlainBox(box) => Intersects(box.re, Screen(w, h))
    case InterBox(from, to) =>
      var raw := from.(attr := from.attr.(solid := false, vgrad := false, hgrad := false));
      from.attr == Classify(raw, to)
    case PlainIcon(x, y, img, _) => Intersects(IconRect(x, y, img), Screen(w, h))
    case CropIcon(x, y, img, _, from, to) =>
      && Contains(IconRect(0, 0, img), from) && Contains(IconRect(0, 0, img), to)
      && Intersects(IconRect(x, y, img), Screen(w, h))
  }

  /** bnd_init: the first bounding rectangle. */
  function FirstBnd(w: int, h: int, s: Shape): VRect
    requires w > 0 && h > 0
  {
    var r := match s
      case PlainBox(box) => box.re
      case InterBox(from, to) => Bound(from.re, to.re)
      case PlainIcon(x, y, img, _) => IconRect(x, y, img)
      case CropIcon(x, y, _, _, from, to) => Shift(Bound(from, to), x, y);
    SanitizeCovers(w, h, r);
    Sanitize(w, h, r)
  }

  /** What icon_render reads for the first bounding rectangle of an icon lies inside its picture
      if and only if the icon overlaps the screen. */
  lemma IconReadsInsideIff(w: int, h: int, x: int, y: int, img: Img, on: Option<Trigger>)
    requires w > 0 && h > 0
    ensures Contains(IconRect(x, y, img), FirstBnd(w, h, PlainIcon(x, y, img, on))) <==>
            Intersects(IconRect(x, y, img), Screen(w, h))
  {
    SanitizeCovers(w, h, IconRect(x, y, img));
    SanitizeExact(w, h, IconRect(x, y, img));
  }

  /** A plain box is drawn as its reference on the whole screen if and only if it overlaps the
      screen or the strip it is clamped to is transparent; otherwise that strip is painted. */
  lemma BoxOnScreenIff(w: int, h: int, o: Obj, p: int)
    requires w > 0 && h > 0 && InRange(p) && o.spec.shape.PlainBox? && o.bnd == FirstBnd(w, h, o.spec.shape)
    requires o.spec.silent && o.visible
    ensures (forall x: int, y: int, q: Pixel :: OnScreen(w, h, x, y) ==> Draw(o, x, y, q) == DrawAt(o, p, x, y, q)) <==>
            || Intersects(o.spec.shape.box.re, Screen(w, h))
            || forall x, y :: Has(o.bnd, x, y) ==> BoxColor(o.spec.shape.box, x, y).a == 0
  {
    hide Over, BoxColor;
    var b := o.spec.shape.box;
    SanitizeCovers(w, h, b.re);
    SanitizeExact(w, h, b.re);
    if !Intersects(b.re, Screen(w, h)) {
      forall x, y | Has(o.bnd, x, y)
        ensures BoxColor(b, x, y).a == 0 <==> forall q: Pixel :: Draw(o, x, y, q) == DrawAt(o, p, x, y, q)
      {
        var c := BoxColor(b, x, y);
        ColourShowsIff(c);
        assert forall q: Pixel :: Draw(o, x, y, q) == Over(q, c.a, c.r, c.g, c.b) && DrawAt(o, p, x, y, q) == q;
      }
    }
  }

  /** What is read for the crops of an icon lies inside its picture at every progress if and only
      if both crop rectangles do.  The first bounding rectangle, which stays while the routine
      returns early, does so then if and only if the picture overlaps the screen. */
  lemma CropReadsInsideIff(w: int, h: int, x: int, y: int, img: Img, on: Option<Trigger>, from: VRect, to: VRect)
    requires w > 0 && h > 0
    ensures var inside := Contains(IconRect(0, 0, img), from) && Contains(IconRect(0, 0, img), to);
            && ((forall p :: InRange(p) ==> Contains(IconRect(x, y, img), Area(CropIcon(x, y, img, on, from, to), p))) <==> inside)
            && (inside ==> (Contains(IconRect(x, y, img), FirstBnd(w, h, CropIcon(x, y, img, on, from, to))) <==>
                            Intersects(IconRect(x, y, img), Screen(w, h))))
  {
    hide Interpolate;
    var s := CropIcon(x, y, img, on, from, to);
    InterpolateStaysInBound(from, to, 0);
    InterpolateStaysInBound(from, to, PROGRESS_MAX);
    assert Area(s, 0) == Shift(from, x, y) && Area(s, PROGRESS_MAX) == Shift(to, x, y);
    if Contains(IconRect(0, 0, img), from) && Contains(IconRect(0, 0, img), to) {
      forall p | InRange(p) ensures Contains(IconRect(x, y, img), Area(s, p)) {
        InterpolateStaysInBound(from, to, p);
      }
      ClampedPart(w, h, Shift(Bound(from, to), x, y), IconRect(x, y, img));
    }
  }

  /** A part of a picture clamped to the screen stays in the picture if and only if the picture
      overlaps the screen. */
  lemma ClampedPart(w: int, h: int, part: VRect, whole: VRect)
    requires w > 0 && h > 0 && Contains(whole, part)
    ensures Contains(whole, Sanitize(w, h, part)) <==> Intersects(whole, Screen(w, h))
  {
  }

  lemma BoundCovers(a: VRect, b: VRect, p: int, dx: int, dy: int, x: int, y: int)
    requires InRange(p) && Has(Shift(Interpolate(a, b, p), dx, dy), x, y)
    ensures Has(Shift(Bound(a, b), dx, dy), x, y)
  {
    hide Interpolate;
    InterpolateStaysInBound(a, b, p);
  }

  /** The first bounding rectangle has every on-screen pixel the object can ever occupy,
      whatever the progress. */
  lemma FirstBndCovers(w: int, h: int, s: Shape, p: int, x: int, y: int)
    requires w > 0 && h > 0 && InRange(p) && OnScreen(w, h, x, y) && Has(Area(s, p), x, y)
    ensures Has(FirstBnd(w, h, s), x, y)
  {
    hide Interpolate, BoxAt;
    match s
    case PlainBox(box) => SanitizeCovers(w, h, box.re);
    case InterBox(from, to) =>
      BoxRectangle(from, to, p);
      BoundCovers(from.re, to.re, p, 0, 0, x, y);
      SanitizeCovers(w, h, Bound(from.re, to.re));
    case PlainIcon(ix, iy, img, _) => SanitizeCovers(w, h, IconRect(ix, iy, img));
    case CropIcon(ix, iy, img, _, from, to) =>
      BoundCovers(from, to, p, ix, iy, x, y);
      SanitizeCovers(w, h, Shift(Bound(from, to), ix, iy));
  }

  lemma BoxRectangle(from: Box, to: Box, p: int)
    requires InRange(p)
    ensures BoxAt(from, to, p).re == Interpolate(from.re, to.re, p)
  {
  }

  /** An object before the loader starts fade-ins: icons of a service are invisible, and the
      cached box is interpolated before its attribute bits are set. */
  function Parsed(w: int, h: int, sp: Spec, p: int): Obj
    requires w > 0 && h > 0 && InRange(p)
  {
    var s := sp.shape;
    var dot := Rect(0, 0, 0, 0);
    var none := Color(0, 0, 0, 0);
    var curr := if s.InterBox? then BoxAt(s.from.(attr := s.from.attr.(solid := false, vgrad := false, hgrad := false)), s.to, p)
                else Box(dot, none, none, none, none, Attr(false, false, false, false, false));
    var crop: VRect := if s.CropIcon? then InterpolateStaysInBound(s.cropFrom, s.cropTo, p); Interpolate(s.cropFrom, s.cropTo, p) else dot;
    Obj(sp, FirstBnd(w, h, s), curr, crop, true, ShownFirst(s), 255, 0, 0, 0)
  }

  /** An object as the parser and the loader leave it. */
  function Loaded(w: int, h: int, sp: Spec, p: int): Obj
    requires w > 0 && h > 0 && InRange(p)
  {
    var o := Parsed(w, h, sp, p);
    if StartsFading(sp) then SetVisible(o.(visible := false), true).0 else o
  }

  /** Icons of a service start invisible. */
  predicate ShownFirst(s: Shape) {
    !((s.PlainIcon? || s.CropIcon?) && s.on.Some?)
  }

  /** The objects that the loader fades in. */
  predicate StartsFading(sp: Spec) {
    ShownFirst(sp.shape) && sp.blendin > 0
  }

  /** An icon that is shown for a state of a service. */
  predicate OfService(s: Shape) {
    (s.PlainIcon? || s.CropIcon?) && s.on.Some?
  }

  lemma ParsedIs(w: int, h: int, sp: Spec, p: int)
    requires w > 0 && h > 0 && InRange(p)
    ensures var o := Parsed(w, h, sp, p);
            && o.spec == sp && o.invalid && o.visible == !OfService(sp.shape) && o.opacity == 255
            && o.tstep == 0 && o.step == 0 && o.wait == 0 && o.bnd == FirstBnd(w, h, sp.shape)
            && (sp.shape.CropIcon? ==> RectShare(o.cropCurr, sp.shape.cropFrom, sp.shape.cropTo, p))
            && (sp.shape.InterBox? ==> RectShare(o.curr.re, sp.shape.from.re, sp.shape.to.re, p))
  {
    hide BoxAt, Interpolate, FirstBnd, RectShare;
    var s := sp.shape;
    if s.CropIcon? {
      InterpolateStaysInBound(s.cropFrom, s.cropTo, p);
      InterpolateShares(s.cropFrom, s.cropTo, p);
    }
    if s.InterBox? {
      BoxRectShares(s.from.(attr := s.from.attr.(solid := false, vgrad := false, hgrad := false)), s.to, p);
    }
  }

  lemma BoxRectShares(from: Box, to: Box, p: int)
    requires InRange(p)
    ensures RectShare(BoxAt(from, to, p).re, from.re, to.re, p)
  {
    hide IsQuotient, BoxAt;
    BoxIsShare(from, to, p);
  }

  /** What a loaded object looks like: opaque unless it is to fade in, invisible only as the icon of
      a service, its cache that of the progress at loading. */
  lemma LoadedIs(w: int, h: int, sp: Spec, p: int)
    requires w > 0 && h > 0 && InRange(p)
    ensures var o := Loaded(w, h, sp, p);
            var fading := !OfService(sp.shape) && sp.blendin > 0;
            && o.spec == sp && o.invalid && o.visible == !OfService(sp.shape)
            && o.opacity == (if fading then 0 else 255)
            && (if fading then FadesWith(o, sp.blendin, true) else o.tstep == 0 && o.step == 0 && o.wait == 0)
            && (sp.shape.CropIcon? ==> RectShare(o.cropCurr, sp.shape.cropFrom, sp.shape.cropTo, p))
            && (sp.shape.InterBox? ==> RectShare(o.curr.re, sp.shape.from.re, sp.shape.to.re, p))
            && o.bnd == FirstBnd(w, h, sp.shape)
  {
    hide Parsed, FirstBnd, RectShare, SetVisible, FadesWith;
    ParsedIs(w, h, sp, p);
    SetVisibleIs(Parsed(w, h, sp, p).(visible := false), true);
  }

  lemma InterpolateShares(a: Rect, b: Rect, p: int)
    ensures RectShare(Interpolate(a, b, p), a, b, p)
  {
    hide IsQuotient, Interpolate;
    InterpolateIsShare(a, b, p);
  }

  lemma SanitizeMonotone(w: int, h: int, a: VRect, c: VRect)
    requires w > 0 && h > 0 && Contains(c, a)
    ensures Contains(Sanitize(w, h, c), Sanitize(w, h, a))
  {
  }

  /** The first bounding rectangle is the smallest one on the screen: any rectangle that has the
      object at every progress has, cut to the screen, the first bounding rectangle. */
  lemma FirstBndIsSmallest(w: int, h: int, s: Shape, c: VRect)
    requires w > 0 && h > 0 && forall p :: InRange(p) ==> Contains(c, Area(s, p))
    ensures Contains(Sanitize(w, h, c), FirstBnd(w, h, s))
  {
    hide Interpolate, Sanitize, BoxAt, Bound;
    assert InRange(0) && InRange(PROGRESS_MAX);
    match s
    case PlainBox(box) =>
      assert Area(s, 0) == box.re;
      SanitizeMonotone(w, h, box.re, c);
    case PlainIcon(x, y, img, _) =>
      assert Area(s, 0) == IconRect(x, y, img);
      SanitizeMonotone(w, h, IconRect(x, y, img), c);
    case InterBox(from, to) =>
      BoxAtEnds(from, to);
      ValidBound(from.re, to.re);
      BoundIsSmallest(from.re, to.re, c);
      SanitizeMonotone(w, h, Bound(from.re, to.re), c);
    case CropIcon(x, y, _, _, from, to) =>
      CropEnds(s);
      BoundIsSmallest(Shift(from, x, y), Shift(to, x, y), c);
      BoundShifts(from, to, x, y);
      SanitizeMonotone(w, h, Shift(Bound(from, to), x, y), c);
  }

  lemma ValidBound(a: VRect, b: VRect)
    ensures Valid(Bound(a, b))
  {
  }

  lemma BoundShifts(a: VRect, b: VRect, x: int, y: int)
    ensures Bound(Shift(a, x, y), Shift(b, x, y)) == Shift(Bound(a, b), x, y) && Valid(Shift(Bound(a, b), x, y))
  {
  }

  lemma CropEnds(s: Shape)
    requires s.CropIcon?
    ensures Area(s, 0) == Shift(s.cropFrom, s.x, s.y) && Area(s, PROGRESS_MAX) == Shift(s.cropTo, s.x, s.y)
  {
    hide Interpolate;
    InterpolateStaysInBound(s.cropFrom, s.cropTo, 0);
    InterpolateStaysInBound(s.cropFrom, s.cropTo, PROGRESS_MAX);
  }

  // ------------------------------------------------------ the first picture of a theme

  /** What the configuration alone says about the first picture: boxes are drawn, icons without a
      service too unless they are to fade in. */
  function FirstInk(sp: Spec, p: int, x: int, y: int, px: Pixel): Pixel
    requires InRange(p)
  {
    if !sp.silent || !Has(Area(sp.shape, p), x, y) then px
    else if sp.shape.PlainBox? || sp.shape.InterBox? then InkAt(sp.shape, 255, p, x, y, px)
    else if sp.shape.on.None? && sp.blendin == 0 then InkAt(sp.shape, 255, p, x, y, px)
    else px
  }

  function FirstPicture(specs: seq<Spec>, p: int, x: int, y: int, px: Pixel): Pixel
    requires InRange(p)
  {
    if specs == [] then px
    else FirstInk(specs[|specs| - 1], p, x, y, FirstPicture(specs[..|specs| - 1], p, x, y, px))
  }

  lemma LoadedDraws(w: int, h: int, sp: Spec, p: int, x: int, y: int, px: Pixel)
    requires w > 0 && h > 0 && InRange(p)
    ensures DrawAt(Loaded(w, h, sp, p), p, x, y, px) == FirstInk(sp, p, x, y, px)
  {
    hide Loaded, Area, BoxAt, InkBox, InkIcon, Blend, FadesWith, RectShare, FirstBnd;
    LoadedIs(w, h, sp, p);
    match sp.shape
    case PlainIcon(ix, iy, img, _) => TransparentIcon(ix, iy, img, x, y, px);
    case CropIcon(ix, iy, img, _, _, _) => TransparentIcon(ix, iy, img, x, y, px);
    case _ =>
  }

  lemma TransparentIcon(ix: int, iy: int, img: Img, x: int, y: int, px: Pixel)
    ensures InkIcon(ix, iy, img, 0, x, y, px) == px
  {
    if Has(IconRect(ix, iy, img), x, y) {
      FadedForward(0, 0, img.px[y - iy][x - ix].a);
    }
  }

  /** The cache-free picture of loaded objects is what the configuration says. */
  lemma {:induction false} LoadedPicture(w: int, h: int, specs: seq<Spec>, objs: seq<Obj>, p: int, x: int, y: int, px: Pixel)
    requires w > 0 && h > 0 && InRange(p) && |objs| == |specs|
    requires forall i :: 0 <= i < |specs| ==> objs[i] == Loaded(w, h, specs[i], p)
    ensures Reference(objs, p, x, y, px) == FirstPicture(specs, p, x, y, px)
    decreases |specs|
  {
    hide Loaded, DrawAt, FirstInk;
    if specs != [] {
      var n := |specs| - 1;
      LoadedPicture(w, h, specs[..n], objs[..n], p, x, y, px);
      LoadedDraws(w, h, specs[n], p, x, y, FirstPicture(specs[..n], p, x, y, px));
    }
  }

  /** A loaded object meets the assumptions the rest of the model makes about objects. */
  lemma LoadedFits(w: int, h: int, sp: Spec, p: int)
    requires w > 0 && h > 0 && InRange(p) && Loadable(w, h, sp.shape)
    ensures Fits(w, h, Loaded(w, h, sp, p))
  {
    hide BoxAt, Interpolate;
    match sp.shape
    case PlainBox(_) =>
    case PlainIcon(_, _, _, _) =>
    case InterBox(from, to) =>
      var raw := from.(attr := from.attr.(solid := false, vgrad := false, hgrad := false));
      assert raw.(attr := from.attr) == from;
      ClassifiedIsHonest(raw, to);
    case CropIcon(x, y, img, _, from, to) =>
      var r := Shift(Bound(from, to), x, y);
      assert Contains(IconRect(x, y, img), r);
      ClampedPart(w, h, r, IconRect(x, y, img));
  }

  lemma ClassifiedIsHonest(raw: Box, to: Box)
    requires !raw.attr.solid && !raw.attr.vgrad && !raw.attr.hgrad
    ensures var b := raw.(attr := Classify(raw, to));
            Honest(b) && (b.attr.solid || b.attr.vgrad || b.attr.hgrad ==> SameColours(b, to))
  {
  }
}
