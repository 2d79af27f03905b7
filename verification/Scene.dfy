/**
  The compositor as a state machine: scene, back buffer and framebuffer under the commands of
  the daemon (core/src/render.c, render_objs and the invalidate functions;
  core/src/libfbsplashrender.c, fbsplashr_render_buf, fbsplashr_render_screen and
  fbsplashr_progress_set; core/src/daemon_cmd.c, the paint commands).
 */
module Scene {
  import opened Rects
  import opened Pixels
  import opened Boxes
  import opened Objects
  import opened Blit
  import opened Framebuffer

  /** What stays fixed while a theme is loaded: the geometry and the background picture. */
  datatype Setup = Setup(g: Geometry, bg: Bitmap) {
    ghost predicate Valid() {
      g.Valid() && g.IsBitmap(bg)
    }
  }

  /** silent: the silent terminal is in front (ctty == CTTY_SILENT). */
  datatype State = State(objs: seq<Obj>, damage: seq<Rect>, buf: Bitmap, fb: seq<byte>, progress: int, silent: bool)

  /** The effect of one pass of the effects loop on one object: opacity and waiting time change,
      the object may become invisible and may be invalidated. */
  datatype Fade = Fade(opacity: byte, wait: int, hide: bool, touch: bool)

  datatype Cmd =
    | SetProgress(value: int)                            // progress
    | Service(name: string, state: SvcState)             // update_svc
    | Textbox(active: bool)                              // F3
    | Paint(pads: seq<bool>)                             // paint
    | Repaint                                            // repaint
    | PaintArea(x0: int, y0: int, x1: int, y1: int)      // paint rect
    | Tick(fades: seq<Fade>)                             // one round of the animation thread
    | Leave                                              // the silent terminal is released
    | Enter                                              // the silent terminal is back in front
    | Console(bytes: seq<byte>)                          // another terminal draws

  // ------------------------------------------------------------------- first pass

  function PadAt(pads: seq<bool>, i: nat): bool {
    i < |pads| && pads[i]
  }

  function SanitizeAll(w: int, h: int, rs: seq<Rect>): (out: seq<Rect>)
    ensures |out| == |rs|
    ensures forall i :: 0 <= i < |rs| ==> out[i] == Sanitize(w, h, rs[i])
  {
    seq(|rs|, i requires 0 <= i < |rs| => Sanitize(w, h, rs[i]))
  }

  function MarkAll(objs: seq<Obj>, p: int, force: bool, pads: seq<bool>): (out: seq<Obj>)
    requires InRange(p)
    ensures |out| == |objs|
    ensures forall i :: 0 <= i < |objs| ==> out[i] == Mark(objs[i], p, force, PadAt(pads, i)).0
  {
    seq(|objs|, i requires 0 <= i < |objs| => Mark(objs[i], p, force, PadAt(pads, i)).0)
  }

  /** The rectangles blit_add appends while the first n objects are prepared. */
  function MarkDamage(g: Geometry, objs: seq<Obj>, p: int, force: bool, pads: seq<bool>, n: nat): seq<Rect>
    requires InRange(p) && n <= |objs|
  {
    if n == 0 then []
    else
      MarkDamage(g, objs, p, force, pads, n - 1)
      + SanitizeAll(g.xres, g.yres, Mark(objs[n - 1], p, force, PadAt(pads, n - 1)).1)
  }

  // ------------------------------------------------------------------ second pass

  /** One rectangle of the second pass: background, then every object in order. */
  function RedrawnPixel(bg: Bitmap, objs: seq<Obj>, r: Rect, x: int, y: int, before: Pixel): Pixel
    requires 0 <= y < |bg| && 0 <= x < |bg[y]|
  {
    if Has(r, x, y) then Compose(objs, x, y, bg[y][x]) else before
  }

  function RedrawnRect(su: Setup, objs: seq<Obj>, buf: Bitmap, r: Rect): (out: Bitmap)
    requires su.Valid() && su.g.IsBitmap(buf)
    ensures su.g.IsBitmap(out)
    ensures forall y, x {:trigger out[y][x]} :: 0 <= y < su.g.yres && 0 <= x < su.g.xres ==>
              out[y][x] == RedrawnPixel(su.bg, objs, r, x, y, buf[y][x])
  {
    seq(su.g.yres, y requires 0 <= y < su.g.yres =>
      seq(su.g.xres, x requires 0 <= x < su.g.xres => RedrawnPixel(su.bg, objs, r, x, y, buf[y][x])))
  }

  function Redrawn(su: Setup, objs: seq<Obj>, buf: Bitmap, rs: seq<Rect>): (out: Bitmap)
    requires su.Valid() && su.g.IsBitmap(buf)
    ensures su.g.IsBitmap(out)
    decreases |rs|
  {
    if rs == [] then buf else Redrawn(su, objs, RedrawnRect(su, objs, buf, rs[0]), rs[1..])
  }

  /** render_objs */
  function RenderObjs(su: Setup, s: State, force: bool, pads: seq<bool>): State
    requires su.Valid() && su.g.IsBitmap(s.buf) && InRange(s.progress)
  {
    var objs := MarkAll(s.objs, s.progress, force, pads);
    var damage := Normalize(s.damage + MarkDamage(su.g, s.objs, s.progress, force, pads, |s.objs|));
    s.(objs := objs, damage := damage, buf := Redrawn(su, objs, s.buf, damage))
  }

  // --------------------------------------------------------------------- commands

  /** fbsplashr_progress_set */
  function ClampProgress(v: int): (p: int)
    ensures InRange(p)
  {
    if v < 0 then 0 else if v > PROGRESS_MAX then PROGRESS_MAX else v
  }

  /** p is the value in range that is nearest to v. */
  ghost predicate NearestProgress(p: int, v: int) {
    InRange(p) && forall q :: InRange(q) ==> Distance(p, v) <= Distance(q, v)
  }

  lemma ClampIsNearestProgress(v: int)
    ensures NearestProgress(ClampProgress(v), v)
  {
  }

  lemma OneNearest(p: int, q: int, v: int)
    requires NearestProgress(p, v) && NearestProgress(q, v)
    ensures p == q
  {
    if InRange(v) {
      assert Distance(v, v) == 0;
    } else {
      assert InRange(0) && InRange(PROGRESS_MAX);
    }
  }

  /** invalidate_progress, for one object. */
  function ProgressTouch(o: Obj): Obj {
    if o.spec.shape.InterBox? || o.spec.shape.CropIcon? then o.(invalid := true) else o
  }

  /** A progress change invalidates interpolated boxes and cropped icons and leaves plain objects,
      which look the same at every progress, alone. */
  lemma TouchedIff(o: Obj, p: int, q: int, x: int, y: int, px: Pixel)
    requires InRange(p) && InRange(q)
    ensures ProgressTouch(o) == o.(invalid := o.invalid || o.spec.shape.InterBox? || o.spec.shape.CropIcon?)
    ensures !o.invalid && !ProgressTouch(o).invalid ==> DrawAt(o, p, x, y, px) == DrawAt(o, q, x, y, px)
  {
    hide InkBox, InkIcon;
  }

  /** invalidate_progress */
  function TouchAll(objs: seq<Obj>): (out: seq<Obj>)
    ensures |out| == |objs|
    ensures forall i :: 0 <= i < |objs| ==> out[i] == ProgressTouch(objs[i])
  {
    seq(|objs|, i requires 0 <= i < |objs| => ProgressTouch(objs[i]))
  }

  function TriggerOf(s: Shape): Option<Trigger> {
    match s
    case PlainIcon(_, _, _, on) => on
    case CropIcon(_, _, _, on, _, _) => on
    case _ => None
  }

  /** The visibility a command asks of an object: invalidate_service for icons of the service,
      invalidate_textbox for objects of the textbox. */
  function Wanted(c: Cmd, o: Obj): Option<bool> {
    match c
    case Service(name, state) =>
      var t := TriggerOf(o.spec.shape);
      if t.Some? && t.value.svc == name then Some(t.value.ty == state) else None
    case Textbox(active) => if o.spec.textbox then Some(active) else None
    case _ => None
  }

  function Toggled(c: Cmd, o: Obj): (Obj, bool, bool) {
    var v := Wanted(c, o);
    if v.Some? then SetVisible(o.(invalid := true), v.value) else (o, false, false)
  }

  function ToggleAll(c: Cmd, objs: seq<Obj>): (out: seq<Obj>)
    ensures |out| == |objs|
    ensures forall i :: 0 <= i < |objs| ==> out[i] == Toggled(c, objs[i]).0
  {
    seq(|objs|, i requires 0 <= i < |objs| => Toggled(c, objs[i]).0)
  }

  function ToggleDamage(g: Geometry, c: Cmd, objs: seq<Obj>, n: nat): seq<Rect>
    requires n <= |objs|
  {
    if n == 0 then []
    else
      ToggleDamage(g, c, objs, n - 1)
      + if Toggled(c, objs[n - 1]).1 then [Sanitize(g.xres, g.yres, objs[n - 1].bnd)] else []
  }

  function Faint(o: Obj, f: Fade): Obj {
    o.(opacity := f.opacity, wait := f.wait, visible := o.visible && !f.hide, invalid := o.invalid || f.touch)
  }

  function FaintAll(objs: seq<Obj>, fades: seq<Fade>): (out: seq<Obj>)
    ensures |out| == |objs|
    ensures forall i :: 0 <= i < |objs| ==> out[i] == if i < |fades| then Faint(objs[i], fades[i]) else objs[i]
  {
    seq(|objs|, i requires 0 <= i < |objs| => if i < |fades| then Faint(objs[i], fades[i]) else objs[i])
  }

  /** cmd_paint_rect: corners in either order, clamped to the theme. */
  function OrderedArea(g: Geometry, x0: int, y0: int, x1: int, y1: int): Rect {
    Sanitize(g.xres, g.yres, Rect(Min(x0, x1), Max(x0, x1), Min(y0, y1), Max(y0, y1)))
  }

  /** The area between two corners given in any order: if it meets the screen, exactly its pixels on
      the screen; otherwise the corners of the screen nearest to its own. */
  lemma AreaBetweenCorners(g: Geometry, x0: int, y0: int, x1: int, y1: int, x: int, y: int)
    requires g.Valid()
    ensures var r := OrderedArea(g, x0, y0, x1, y1);
            && Inside(g.xres, g.yres, r) && r == OrderedArea(g, x1, y1, x0, y0) == OrderedArea(g, x0, y1, x1, y0)
            && (Intersects(Rect(Min(x0, x1), Max(x0, x1), Min(y0, y1), Max(y0, y1)), Rect(0, g.xres - 1, 0, g.yres - 1)) ==>
                  (Has(r, x, y) <==> OnScreen(g.xres, g.yres, x, y) && (x0 <= x <= x1 || x1 <= x <= x0) && (y0 <= y <= y1 || y1 <= y <= y0)))
            && (OnScreen(g.xres, g.yres, x, y) ==>
                  && Distance(r.x1, Min(x0, x1)) <= Distance(x, Min(x0, x1)) && Distance(r.x2, Max(x0, x1)) <= Distance(x, Max(x0, x1))
                  && Distance(r.y1, Min(y0, y1)) <= Distance(y, Min(y0, y1)) && Distance(r.y2, Max(y0, y1)) <= Distance(y, Max(y0, y1)))
  {
    hide Sanitize, Distance;
    var a := Rect(Min(x0, x1), Max(x0, x1), Min(y0, y1), Max(y0, y1));
    SanitizeCovers(g.xres, g.yres, a);
    SanitizeExact(g.xres, g.yres, a);
    if OnScreen(g.xres, g.yres, x, y) {
      SanitizeIsNearest(g.xres, g.yres, a, x, y);
    }
  }

  function InvalidateAll(objs: seq<Obj>): (out: seq<Obj>)
    ensures |out| == |objs|
    ensures forall i :: 0 <= i < |objs| ==> out[i] == objs[i].(invalid := true)
  {
    seq(|objs|, i requires 0 <= i < |objs| => objs[i].(invalid := true))
  }

  function WholeWindow(g: Geometry): Rect {
    Rect(0, g.xres - 1, 0, g.yres - 1)
  }

  /** fbsplashr_render_buf with repaint set. */
  function Rebuilt(su: Setup, s: State): (out: State)
    requires su.Valid() && InRange(s.progress)
  {
    RenderObjs(su, s.(buf := su.bg, objs := InvalidateAll(s.objs)), true, [])
  }

  /** fbsplashr_render_screen with repaint set and no effects. */
  function FullRepaint(su: Setup, s: State): State
    requires su.Valid() && InRange(s.progress)
  {
    var s1 := Rebuilt(su, s);
    s1.(fb := Copied(su.g, s.fb, s1.buf, WholeWindow(su.g)))
  }

  /** fbsplashr_render_screen with repaint clear. */
  function PartialPaint(su: Setup, s: State, pads: seq<bool>): State
    requires su.Valid() && su.g.IsBitmap(s.buf) && InRange(s.progress)
  {
    var s1 := RenderObjs(su, s, false, pads);
    s1.(fb := CopiedAll(su.g, s.fb, s1.buf, s1.damage), damage := [])
  }

  function Step(su: Setup, s: State, c: Cmd): State
    requires su.Valid() && su.g.IsBitmap(s.buf) && InRange(s.progress)
  {
    match c
    case SetProgress(v) =>
      s.(progress := ClampProgress(v), objs := TouchAll(s.objs))
    case Service(_, _) =>
      s.(objs := ToggleAll(c, s.objs), damage := s.damage + ToggleDamage(su.g, c, s.objs, |s.objs|))
    case Textbox(_) =>
      s.(objs := ToggleAll(c, s.objs), damage := s.damage + ToggleDamage(su.g, c, s.objs, |s.objs|))
    case Paint(pads) => if s.silent then PartialPaint(su, s, pads) else s
    case Repaint => if s.silent then FullRepaint(su, s) else s
    case PaintArea(x0, y0, x1, y1) =>
      if s.silent then s.(fb := Copied(su.g, s.fb, s.buf, OrderedArea(su.g, x0, y0, x1, y1))) else s
    case Tick(fades) =>
      var s1 := s.(objs := FaintAll(s.objs, fades));
      if s.silent then FullRepaint(su, s1) else s1
    case Leave => s.(silent := false)
    case Enter => s.(silent := true)
    case Console(bytes) => if !s.silent && |bytes| == |s.fb| then s.(fb := bytes) else s
  }

  // ------------------------------------------------------------- well-formed states

  ghost predicate AllInside(g: Geometry, rs: seq<Rect>) {
    forall i :: 0 <= i < |rs| ==> Inside(g.xres, g.yres, rs[i])
  }

  ghost predicate AllFit(g: Geometry, objs: seq<Obj>) {
    forall i :: 0 <= i < |objs| ==> Fits(g.xres, g.yres, objs[i])
  }

  ghost predicate WellFormed(su: Setup, s: State) {
    && su.Valid() && su.g.IsBitmap(s.buf) && |s.fb| == su.g.fbLength
    && InRange(s.progress) && AllInside(su.g, s.damage) && AllFit(su.g, s.objs)
  }

  /** The back buffer is the full composition and the framebuffer window shows the back buffer. */
  ghost predicate Exact(su: Setup, s: State)
    requires WellFormed(su, s)
  {
    && (forall x, y {:trigger s.buf[y][x]} :: OnScreen(su.g.xres, su.g.yres, x, y) ==>
          s.buf[y][x] == Reference(s.objs, s.progress, x, y, su.bg[y][x]))
    && Shows(su.g, s.fb, s.buf)
  }

  // ----------------------------------------------------- the two passes, as lemmas

  /** The second pass gives the full composition at every pixel of the union of the rectangles
      and leaves every other pixel unchanged, however they overlap, repeat or are ordered. */
  lemma {:induction false} RedrawIsUnion(su: Setup, objs: seq<Obj>, buf: Bitmap, rs: seq<Rect>, x: int, y: int)
    requires su.Valid() && su.g.IsBitmap(buf) && OnScreen(su.g.xres, su.g.yres, x, y)
    ensures Redrawn(su, objs, buf, rs)[y][x] ==
            if Covered(rs, x, y) then Compose(objs, x, y, su.bg[y][x]) else buf[y][x]
    decreases |rs|
  {
    hide Compose, Has;
    if rs != [] {
      var mid := RedrawnRect(su, objs, buf, rs[0]);
      RedrawIsUnion(su, objs, mid, rs[1..], x, y);
      CoveredSplit(rs, x, y);
      assert mid[y][x] == RedrawnPixel(su.bg, objs, rs[0], x, y, buf[y][x]);
    }
  }

  lemma CoveredConcat(a: seq<Rect>, b: seq<Rect>, x: int, y: int)
    ensures Covered(a + b, x, y) <==> Covered(a, x, y) || Covered(b, x, y)
  {
    hide Has;
    var c := a + b;
    if Covered(c, x, y) {
      var i :| 0 <= i < |c| && Has(c[i], x, y);
      assert i >= |a| ==> Has(b[i - |a|], x, y);
    }
    if Covered(a, x, y) {
      var i :| 0 <= i < |a| && Has(a[i], x, y);
      assert Has(c[i], x, y);
    }
    if Covered(b, x, y) {
      var i :| 0 <= i < |b| && Has(b[i], x, y);
      assert Has(c[|a| + i], x, y);
    }
  }

  ghost predicate AllValid(rs: seq<Rect>) {
    forall i :: 0 <= i < |rs| ==> Valid(rs[i])
  }

  lemma SanitizedList(g: Geometry, rs: seq<Rect>)
    requires g.Valid() && AllValid(rs)
    ensures AllInside(g, SanitizeAll(g.xres, g.yres, rs))
    ensures forall x, y :: OnScreen(g.xres, g.yres, x, y) && Covered(rs, x, y) ==>
              Covered(SanitizeAll(g.xres, g.yres, rs), x, y)
  {
    hide Sanitize, Has;
    var out := SanitizeAll(g.xres, g.yres, rs);
    forall i | 0 <= i < |rs| ensures Inside(g.xres, g.yres, out[i]) {
      SanitizeCovers(g.xres, g.yres, rs[i]);
    }
    forall x, y | OnScreen(g.xres, g.yres, x, y) && Covered(rs, x, y) ensures Covered(out, x, y) {
      var i :| 0 <= i < |rs| && Has(rs[i], x, y);
      SanitizeCovers(g.xres, g.yres, rs[i]);
      assert Has(out[i], x, y);
    }
  }

  lemma MarkDamageValid(o: Obj, p: int, force: bool, pad: bool)
    requires InRange(p)
    ensures AllValid(Mark(o, p, force, pad).1)
  {
    hide BoxAt, Interpolate;
  }

  /** Every rectangle marked for an object of the list is in the list of damage. */
  lemma {:induction false} MarkDamageHas(g: Geometry, objs: seq<Obj>, p: int, force: bool, pads: seq<bool>, n: nat, i: nat, x: int, y: int)
    requires g.Valid() && InRange(p) && i < n <= |objs| && OnScreen(g.xres, g.yres, x, y)
    requires Covered(Mark(objs[i], p, force, PadAt(pads, i)).1, x, y)
    ensures Covered(MarkDamage(g, objs, p, force, pads, n), x, y)
  {
    hide Mark, Sanitize, Has;
    var d := Mark(objs[n - 1], p, force, PadAt(pads, n - 1)).1;
    MarkDamageValid(objs[n - 1], p, force, PadAt(pads, n - 1));
    SanitizedList(g, d);
    CoveredConcat(MarkDamage(g, objs, p, force, pads, n - 1), SanitizeAll(g.xres, g.yres, d), x, y);
    if i < n - 1 {
      MarkDamageHas(g, objs, p, force, pads, n - 1, i, x, y);
    }
  }

  lemma {:induction false} MarkDamageInside(g: Geometry, objs: seq<Obj>, p: int, force: bool, pads: seq<bool>, n: nat)
    requires g.Valid() && InRange(p) && n <= |objs|
    ensures AllInside(g, MarkDamage(g, objs, p, force, pads, n))
  {
    hide Mark, Sanitize, Inside;
    if n > 0 {
      MarkDamageInside(g, objs, p, force, pads, n - 1);
      MarkDamageValid(objs[n - 1], p, force, PadAt(pads, n - 1));
      SanitizedList(g, Mark(objs[n - 1], p, force, PadAt(pads, n - 1)).1);
    }
  }

  lemma NormalizeInside(g: Geometry, rs: seq<Rect>)
    requires AllInside(g, rs)
    ensures AllInside(g, Normalize(rs))
  {
    hide Normalize, Inside;
    NormalizeKeeps(rs);
    forall i | 0 <= i < |Normalize(rs)| ensures Inside(g.xres, g.yres, Normalize(rs)[i]) {
      assert Normalize(rs)[i] in rs;
    }
  }

  lemma MarkFits(g: Geometry, objs: seq<Obj>, p: int, force: bool, pads: seq<bool>)
    requires InRange(p) && AllFit(g, objs)
    ensures AllFit(g, MarkAll(objs, p, force, pads))
  {
    hide Prerender, Fits;
    forall i | 0 <= i < |objs| ensures Fits(g.xres, g.yres, MarkAll(objs, p, force, pads)[i]) {
      PrerenderFits(g.xres, g.yres, objs[i], p, force, PadAt(pads, i));
      InvalidIrrelevant(g.xres, g.yres, objs[i]);
      InvalidIrrelevant(g.xres, g.yres, Prerender(objs[i], p, force, PadAt(pads, i)).0);
    }
  }

  lemma InvalidIrrelevant(w: int, h: int, o: Obj)
    ensures Fits(w, h, o.(invalid := false)) == Fits(w, h, o) == Fits(w, h, o.(invalid := true))
  {
  }

  lemma RenderWellFormed(su: Setup, s: State, force: bool, pads: seq<bool>)
    requires WellFormed(su, s)
    ensures WellFormed(su, RenderObjs(su, s, force, pads))
  {
    hide Mark, Fits, Inside, Redrawn, Normalize, MarkDamage;
    MarkDamageInside(su.g, s.objs, s.progress, force, pads, |s.objs|);
    NormalizeInside(su.g, s.damage + MarkDamage(su.g, s.objs, s.progress, force, pads, |s.objs|));
    MarkFits(su.g, s.objs, s.progress, force, pads);
  }

  /** What render_objs does to one pixel of the back buffer. */
  lemma RenderedPixel(su: Setup, s: State, force: bool, pads: seq<bool>, x: int, y: int)
    requires WellFormed(su, s) && OnScreen(su.g.xres, su.g.yres, x, y)
    ensures var s' := RenderObjs(su, s, force, pads);
            var d := MarkDamage(su.g, s.objs, s.progress, force, pads, |s.objs|);
            && (Covered(s'.damage, x, y) <==> Covered(s.damage, x, y) || Covered(d, x, y))
            && s'.buf[y][x] == if Covered(s'.damage, x, y) then Compose(s'.objs, x, y, su.bg[y][x]) else s.buf[y][x]
  {
    hide Mark, Fits, Inside, Redrawn, Normalize, MarkDamage, Compose, Has, MarkAll;
    var s' := RenderObjs(su, s, force, pads);
    var d := MarkDamage(su.g, s.objs, s.progress, force, pads, |s.objs|);
    NormalizeKeepsCoverage(s.damage + d, x, y);
    CoveredConcat(s.damage, d, x, y);
    RedrawIsUnion(su, s'.objs, s.buf, s'.damage, x, y);
  }

  // ---------------------------------------------------------- comparing compositions

  ghost predicate SameDraw(a: Obj, b: Obj, x: int, y: int) {
    forall q :: Draw(a, x, y, q) == Draw(b, x, y, q)
  }

  lemma {:induction false} SameComposition(a: seq<Obj>, b: seq<Obj>, x: int, y: int, q: Pixel)
    requires |a| == |b| && forall i :: 0 <= i < |a| ==> SameDraw(a[i], b[i], x, y)
    ensures Compose(a, x, y, q) == Compose(b, x, y, q)
    decreases |a|
  {
    hide Draw;
    if a != [] {
      var n := |a| - 1;
      SameComposition(a[..n], b[..n], x, y, q);
      assert SameDraw(a[n], b[n], x, y);
    }
  }

  ghost predicate DrawsReference(a: Obj, b: Obj, p: int, x: int, y: int)
    requires InRange(p)
  {
    forall q :: Draw(a, x, y, q) == DrawAt(b, p, x, y, q)
  }

  lemma {:induction false} CompositionIsReference(a: seq<Obj>, b: seq<Obj>, p: int, x: int, y: int, q: Pixel)
    requires InRange(p) && |a| == |b| && forall i :: 0 <= i < |a| ==> DrawsReference(a[i], b[i], p, x, y)
    ensures Compose(a, x, y, q) == Reference(b, p, x, y, q)
    decreases |a|
  {
    hide Draw, DrawAt;
    if a != [] {
      var n := |a| - 1;
      CompositionIsReference(a[..n], b[..n], p, x, y, q);
      assert DrawsReference(a[n], b[n], p, x, y);
    }
  }

  /** Objects that draw nothing at a pixel leave the background there. */
  lemma {:induction false} NothingDrawn(objs: seq<Obj>, x: int, y: int, q: Pixel)
    requires forall i, v :: 0 <= i < |objs| ==> Draw(objs[i], x, y, v) == v
    ensures Compose(objs, x, y, q) == q
    decreases |objs|
  {
    hide Draw;
    if objs != [] {
      var n := |objs| - 1;
      NothingDrawn(objs[..n], x, y, q);
    }
  }
}
