/**
  Objects that have just become visible, pixel by pixel: exactly where an incremental paint
  leaves the picture wrong (core/src/render.c, the prerender routines and render_objs).
 */
module Reveals {
  import opened Rects
  import opened Pixels
  import opened Boxes
  import opened Objects
  import opened Blit
  import opened Framebuffer
  import opened Scene
  import opened Runs

  /** The early return of the prerender routines. */
  predicate Quiet(o: Obj, p: int, pad: bool)
    requires InRange(p)
  {
    match o.spec.shape
    case InterBox(from, to) => Unchanged(BoxAt(from, to, p), o.curr, pad)
    case CropIcon(_, _, _, _, from, to) => Interpolate(from, to, p) == o.cropCurr
    case _ => false
  }

  /** An incremental prerender leaves a consistent cache of the current progress if and only if
      the cache was consistent before or the routine does not return early. */
  lemma PrerenderSettlesIff(w: int, h: int, o: Obj, p: int, pad: bool)
    requires InRange(p) && Fits(w, h, o)
    ensures var o' := Prerender(o, p, false, pad).0;
            Settled(o') && Current(o', p) <==> Settled(o) || !Quiet(o, p, pad)
  {
    hide BoxAt, Interpolate, StripsX, StripsY, Sanitize, Honest;
    match o.spec.shape
    case InterBox(from, to) => ColoursStay(from, to, p);
    case CropIcon(_, _, _, _, from, to) => InterpolateStaysInBound(from, to, p);
    case _ =>
  }

  /** A cropped icon of a service that is shown for the first time at the progress it was loaded
      with is drawn over the bound of both its crop rectangles. */
  lemma FirstShowOverdraws(w: int, h: int, sp: Spec, p: int, pad: bool, x: int, y: int, q: Pixel)
    requires w > 0 && h > 0 && InRange(p) && sp.silent && sp.blendin == 0
    requires sp.shape.CropIcon? && sp.shape.on.Some?
    ensures var o := SetVisible(Loaded(w, h, sp, p), true).0;
            Draw(Mark(o, p, false, pad).0, x, y, q)
            == if Has(FirstBnd(w, h, sp.shape), x, y) then InkAt(sp.shape, o.opacity, p, x, y, q) else q
  {
    hide Interpolate, FirstBnd, InkIcon;
    InterpolateStaysInBound(sp.shape.cropFrom, sp.shape.cropTo, p);
  }

  /** A loaded cropped icon is drawn on its first show where it belongs if and only if its first
      bounding rectangle is that of its crop. */
  lemma FirstShowSettlesIff(w: int, h: int, sp: Spec, p: int)
    requires w > 0 && h > 0 && InRange(p) && sp.shape.CropIcon?
    ensures Settled(Loaded(w, h, sp, p)) <==> FirstBnd(w, h, sp.shape) == Area(sp.shape, p)
    ensures Quiet(Loaded(w, h, sp, p), p, false) && Quiet(Loaded(w, h, sp, p), p, true)
  {
    hide Interpolate, FirstBnd, Steps;
    InterpolateStaysInBound(sp.shape.cropFrom, sp.shape.cropTo, p);
  }

  // --------------------------------------------------------------- one pixel of a paint

  /** A revealed object whose inconsistent cache is mistaken for an up-to-date one. */
  predicate Stale(o: Obj, p: int, pad: bool)
    requires InRange(p)
  {
    o.spec.silent && o.visible && !Settled(o) && Quiet(o, p, pad)
  }

  function StaleOnes(s: State, h: History, pads: seq<bool>): set<nat>
    requires InRange(s.progress)
  {
    set i: nat | i < |s.objs| && i in h.revealed && Stale(s.objs[i], s.progress, PadAt(pads, i))
  }

  /** A stale object is drawn over its cached bounding rectangle. */
  function StaleDraw(o: Obj, p: int, x: int, y: int, q: Pixel): Pixel
    requires InRange(p)
  {
    if Has(o.bnd, x, y) then InkAt(o.spec.shape, o.opacity, p, x, y, q) else q
  }

  /** The cache-free composition, except that some objects are drawn over their bounding
      rectangles. */
  function Patched(objs: seq<Obj>, stale: set<nat>, p: int, x: int, y: int, px: Pixel): Pixel
    requires InRange(p)
  {
    if objs == [] then px
    else
      var n := |objs| - 1;
      var below := Patched(objs[..n], stale, p, x, y, px);
      if n in stale then StaleDraw(objs[n], p, x, y, below) else DrawAt(objs[n], p, x, y, below)
  }

  /** Stale objects do no harm at pixels that lie in both or in none of their bounding rectangle
      and the area they should occupy. */
  lemma {:induction false} PatchedIsReference(objs: seq<Obj>, stale: set<nat>, p: int, x: int, y: int, px: Pixel)
    requires InRange(p)
    requires forall i :: 0 <= i < |objs| && i in stale ==>
               objs[i].spec.silent && objs[i].visible && (Has(objs[i].bnd, x, y) <==> Has(Area(objs[i].spec.shape, p), x, y))
    ensures Patched(objs, stale, p, x, y, px) == Reference(objs, p, x, y, px)
    decreases |objs|
  {
    hide InkAt, Area, Has;
    if objs != [] {
      PatchedIsReference(objs[..|objs| - 1], stale, p, x, y, px);
    }
  }

  lemma DrawAtBySpec(a: Obj, b: Obj, p: int, x: int, y: int, q: Pixel)
    requires InRange(p) && a.spec == b.spec && a.visible == b.visible && a.opacity == b.opacity
    ensures DrawAt(a, p, x, y, q) == DrawAt(b, p, x, y, q)
  {
    hide InkAt, Area;
  }

  lemma DrawIsReference(w: int, h: int, o: Obj, o': Obj, p: int, x: int, y: int, q: Pixel)
    requires w > 0 && h > 0 && InRange(p) && OnScreen(w, h, x, y) && Fits(w, h, o')
    requires o'.spec == o.spec && o'.visible == o.visible && o'.opacity == o.opacity
    requires o.spec.silent && o.visible ==> Settled(o') && Current(o', p)
    ensures Draw(o', x, y, q) == DrawAt(o, p, x, y, q)
  {
    hide Draw, DrawAt, Settled, Current, Fits;
    CachedIsReference(w, h, o', p, x, y, q);
    DrawAtBySpec(o', o, p, x, y, q);
  }

  /** After the first pass of an incremental paint an object that is not stale draws its
      reference. */
  lemma MarkDrawsReference(w: int, h: int, o: Obj, p: int, pad: bool, revealed: bool, x: int, y: int, q: Pixel)
    requires w > 0 && h > 0 && InRange(p) && OnScreen(w, h, x, y) && Fits(w, h, o)
    requires Tracked(o, p, revealed) && (revealed ==> !Stale(o, p, pad))
    ensures Draw(Mark(o, p, false, pad).0, x, y, q) == DrawAt(o, p, x, y, q)
  {
    hide Prerender, Fits, Settled, Current, Draw, DrawAt, Quiet;
    var o' := Mark(o, p, false, pad).0;
    MarkKeepsSpec(o, p, false, pad);
    MarkOneFits(w, h, o, p, pad);
    if o.spec.silent && o.visible && o.invalid {
      PrerenderSettlesIff(w, h, o, p, pad);
      CacheIgnoresInvalid(Prerender(o, p, false, pad).0, p);
    }
    DrawIsReference(w, h, o, o', p, x, y, q);
  }

  /** A stale object is drawn as StaleDraw says. */
  lemma MarkDrawsStale(o: Obj, p: int, pad: bool, x: int, y: int, q: Pixel)
    requires InRange(p) && Stale(o, p, pad)
    ensures Draw(Mark(o, p, false, pad).0, x, y, q) == StaleDraw(o, p, x, y, q)
  {
    hide BoxAt, Interpolate, InkBox, InkIcon, Settled;
  }

  lemma MarkOneFits(w: int, h: int, o: Obj, p: int, pad: bool)
    requires InRange(p) && Fits(w, h, o)
    ensures Fits(w, h, Mark(o, p, false, pad).0)
  {
    hide Prerender, Fits;
    PrerenderFits(w, h, o, p, false, pad);
    InvalidIrrelevant(w, h, o);
    InvalidIrrelevant(w, h, Prerender(o, p, false, pad).0);
  }

  /** At a pixel it does not mark, an object of the shown scene draws its reference. */
  lemma ShownDrawsReference(w: int, h: int, o: Obj, p: int, pad: bool, revealed: bool, x: int, y: int, q: Pixel)
    requires w > 0 && h > 0 && InRange(p) && OnScreen(w, h, x, y) && Fits(w, h, o)
    requires Tracked(o, p, revealed) && !Covered(Mark(o, p, false, pad).1, x, y)
    ensures var shown := if revealed then o.(visible := false) else o;
            Draw(shown, x, y, q) == DrawAt(shown, p, x, y, q)
  {
    hide Mark, Fits, Tracked, Ink, InkAt, Area, Stale;
    if !revealed {
      MarkTracks(w, h, o, p, pad, false, x, y, q);
      MarkDrawsReference(w, h, o, p, pad, false, x, y, q);
    }
  }

  lemma {:induction false} ReferenceBySpec(a: seq<Obj>, b: seq<Obj>, p: int, x: int, y: int, q: Pixel)
    requires InRange(p) && |a| == |b|
    requires forall i :: 0 <= i < |a| ==> a[i].spec == b[i].spec && a[i].visible == b[i].visible && a[i].opacity == b[i].opacity
    ensures Reference(a, p, x, y, q) == Reference(b, p, x, y, q)
    decreases |a|
  {
    hide DrawAt;
    if a != [] {
      var n := |a| - 1;
      ReferenceBySpec(a[..n], b[..n], p, x, y, q);
      DrawAtBySpec(a[n], b[n], p, x, y, Reference(a[..n], p, x, y, q));
    }
  }

  ghost predicate DrawsPatched(a: seq<Obj>, b: seq<Obj>, stale: set<nat>, p: int, x: int, y: int)
    requires InRange(p) && |a| == |b|
  {
    forall i, q :: 0 <= i < |a| ==>
      Draw(a[i], x, y, q) == if i in stale then StaleDraw(b[i], p, x, y, q) else DrawAt(b[i], p, x, y, q)
  }

  lemma {:induction false} CompositionIsPatched(a: seq<Obj>, b: seq<Obj>, stale: set<nat>, p: int, x: int, y: int, q: Pixel)
    requires InRange(p) && |a| == |b| && DrawsPatched(a, b, stale, p, x, y)
    ensures Compose(a, x, y, q) == Patched(b, stale, p, x, y, q)
    decreases |a|
  {
    hide Draw, DrawAt, StaleDraw;
    if a != [] {
      var n := |a| - 1;
      CompositionIsPatched(a[..n], b[..n], stale, p, x, y, q);
    }
  }

  /** What an incremental paint leaves at a pixel: the scene, with stale objects drawn over their
      bounding rectangles, where the pixel is repainted, and the scene without the revealed
      objects elsewhere. */
  lemma PaintedPixel(su: Setup, s: State, h: History, pads: seq<bool>, x: int, y: int)
    requires Inv(su, s, h) && h.synced && OnScreen(su.g.xres, su.g.yres, x, y)
    ensures var s1, px := RenderObjs(su, s, false, pads), su.bg[y][x];
            s1.buf[y][x] == if Covered(s1.damage, x, y) then Patched(s.objs, StaleOnes(s, h, pads), s.progress, x, y, px)
                            else Reference(Shown(s.objs, h.revealed), s.progress, x, y, px)
  {
    hide Mark, Fits, Redrawn, Normalize, MarkDamage, Draw, DrawAt, StaleDraw, Patched, Compose, Reference, Tracked, Stale, Inside, Shows;
    RenderedPixel(su, s, false, pads, x, y);
    var s1 := RenderObjs(su, s, false, pads);
    if Covered(s1.damage, x, y) {
      var stale := StaleOnes(s, h, pads);
      forall i, q | 0 <= i < |s.objs|
        ensures Draw(s1.objs[i], x, y, q) ==
                if i in stale then StaleDraw(s.objs[i], s.progress, x, y, q) else DrawAt(s.objs[i], s.progress, x, y, q)
      {
        if i in stale {
          MarkDrawsStale(s.objs[i], s.progress, PadAt(pads, i), x, y, q);
        } else {
          MarkDrawsReference(su.g.xres, su.g.yres, s.objs[i], s.progress, PadAt(pads, i), i in h.revealed, x, y, q);
        }
      }
      CompositionIsPatched(s1.objs, s.objs, stale, s.progress, x, y, su.bg[y][x]);
    } else {
      var shown := Shown(s.objs, h.revealed);
      forall i | 0 <= i < |s.objs| ensures DrawsReference(shown[i], shown[i], s.progress, x, y) {
        UnmarkedObject(su, s, pads, i, x, y);
        forall q ensures Draw(shown[i], x, y, q) == DrawAt(shown[i], s.progress, x, y, q) {
          ShownDrawsReference(su.g.xres, su.g.yres, s.objs[i], s.progress, PadAt(pads, i), i in h.revealed, x, y, q);
        }
      }
      CompositionIsReference(shown, shown, s.progress, x, y, su.bg[y][x]);
    }
  }

  lemma UnmarkedObject(su: Setup, s: State, pads: seq<bool>, i: nat, x: int, y: int)
    requires su.Valid() && InRange(s.progress) && i < |s.objs| && OnScreen(su.g.xres, su.g.yres, x, y)
    requires !Covered(MarkDamage(su.g, s.objs, s.progress, false, pads, |s.objs|), x, y)
    ensures !Covered(Mark(s.objs[i], s.progress, false, PadAt(pads, i)).1, x, y)
  {
    hide Mark, MarkDamage;
    if Covered(Mark(s.objs[i], s.progress, false, PadAt(pads, i)).1, x, y) {
      MarkDamageHas(su.g, s.objs, s.progress, false, pads, |s.objs|, i, x, y);
    }
  }

  /** When a pixel is right after an incremental paint of a synchronised state: a repainted one if
      and only if stale objects do not change it where they do not belong, any other one if and
      only if it looks the same without the revealed objects. */
  lemma PixelRightIff(su: Setup, s: State, h: History, pads: seq<bool>, x: int, y: int)
    requires Inv(su, s, h) && h.synced && OnScreen(su.g.xres, su.g.yres, x, y)
    ensures WellFormed(su, PartialPaint(su, s, pads))
    ensures var s', px := PartialPaint(su, s, pads), su.bg[y][x];
            var wanted := Reference(s.objs, s.progress, x, y, px);
            && Reference(s'.objs, s'.progress, x, y, px) == wanted
            && (s'.buf[y][x] == wanted <==>
                if Covered(RenderObjs(su, s, false, pads).damage, x, y)
                then Patched(s.objs, StaleOnes(s, h, pads), s.progress, x, y, px) == wanted
                else Reference(Shown(s.objs, h.revealed), s.progress, x, y, px) == wanted)
  {
    hide Mark, Fits, Redrawn, Normalize, MarkDamage, Reference, Patched, AllTracked, BufferTracks, StaleOnes, Inside, Shows, CopiedAll, Covered;
    PaintWellFormed(su, s, pads);
    PaintedPixel(su, s, h, pads, x, y);
    var s' := PartialPaint(su, s, pads);
    forall i | 0 <= i < |s.objs|
      ensures s'.objs[i].spec == s.objs[i].spec && s'.objs[i].visible == s.objs[i].visible && s'.objs[i].opacity == s.objs[i].opacity
    {
      MarkKeepsSpec(s.objs[i], s.progress, false, PadAt(pads, i));
    }
    ReferenceBySpec(s'.objs, s.objs, s.progress, x, y, su.bg[y][x]);
  }

  /** A repainted pixel is right if every stale object has it in both or in none of its bounding
      rectangle and its area; so it always is if no revealed object is stale. */
  lemma RepaintedPixelRight(su: Setup, s: State, h: History, pads: seq<bool>, x: int, y: int)
    requires Inv(su, s, h) && h.synced && OnScreen(su.g.xres, su.g.yres, x, y)
    requires Covered(RenderObjs(su, s, false, pads).damage, x, y)
    requires forall i :: 0 <= i < |s.objs| && i in StaleOnes(s, h, pads) ==>
               (Has(s.objs[i].bnd, x, y) <==> Has(Area(s.objs[i].spec.shape, s.progress), x, y))
    ensures WellFormed(su, PartialPaint(su, s, pads))
    ensures var s' := PartialPaint(su, s, pads);
            s'.buf[y][x] == Reference(s'.objs, s'.progress, x, y, su.bg[y][x])
  {
    hide PartialPaint, RenderObjs, Reference, Patched, AllTracked, BufferTracks, Area, Has, Shows, Covered, Settled, Quiet;
    PixelRightIff(su, s, h, pads, x, y);
    PatchedIsReference(s.objs, StaleOnes(s, h, pads), s.progress, x, y, su.bg[y][x]);
  }

  // ------------------------------------------------------------- settled once and for all

  lemma MarkKeepsSettled(w: int, h: int, o: Obj, p: int, force: bool, pad: bool)
    requires InRange(p) && Fits(w, h, o) && Settled(o)
    ensures Settled(Mark(o, p, force, pad).0)
  {
    hide Prerender, Fits, Settled;
    PrerenderSettles(w, h, o, p, force, pad);
    CacheIgnoresInvalid(o, p);
    CacheIgnoresInvalid(Prerender(o, p, force, pad).0, p);
  }

  /** No command makes a consistent cache inconsistent, so an object that has been on display in a
      repaint is never stale. */
  lemma StepKeepsSettled(su: Setup, s: State, c: Cmd, i: nat)
    requires WellFormed(su, s) && i < |s.objs| && Settled(s.objs[i])
    ensures |Step(su, s, c).objs| == |s.objs| && Settled(Step(su, s, c).objs[i])
  {
    hide AllInside, Fits, Mark, Redrawn, MarkDamage, ToggleDamage, Toggled, BoxAt, Honest;
    var o := s.objs[i];
    ToggleFacts(su.g.xres, su.g.yres, c, o);
    match c
    case Paint(pads) => MarkKeepsSettled(su.g.xres, su.g.yres, o, s.progress, false, PadAt(pads, i));
    case Repaint => RepaintKeepsSettled(su, s, i);
    case Tick(fades) =>
      FaintWellFormed(su, s, fades);
      RepaintKeepsSettled(su, s.(objs := FaintAll(s.objs, fades)), i);
    case _ =>
  }

  lemma RepaintKeepsSettled(su: Setup, s: State, i: nat)
    requires WellFormed(su, s) && i < |s.objs| && Settled(s.objs[i])
    ensures |FullRepaint(su, s).objs| == |s.objs| && Settled(FullRepaint(su, s).objs[i])
  {
    hide AllInside, Fits, Mark, Redrawn, MarkDamage, Settled, Normalize, Copied;
    var o := s.objs[i].(invalid := true);
    InvalidIrrelevant(su.g.xres, su.g.yres, s.objs[i]);
    CacheIgnoresInvalid(s.objs[i], s.progress);
    MarkKeepsSettled(su.g.xres, su.g.yres, o, s.progress, true, false);
  }
}
