/**
  Runs in which incremental paints miss revealed objects: what the back buffer holds then, pixel
  by pixel, until the next repaint (core/src/render.c, the prerender routines and render_objs).

  A missed object may be on some pixels, where something else was repainted, and not on others.
  The trail of a run keeps the objects that may be missing anywhere.
 */
module Missed {
  import opened Rects
  import opened Pixels
  import opened Boxes
  import opened Objects
  import opened Blit
  import opened Framebuffer
  import opened Scene
  import opened Runs
  import opened Reveals

  /** clean: a repaint has happened since the silent terminal last came to the front, and no box
      with an inconsistent cache has been mistaken for an up-to-date one since.  revealed: became
      visible since the last paint.  missed: may be missing on some pixels. */
  datatype Trail = Trail(clean: bool, revealed: set<nat>, missed: set<nat>)

  predicate NoStaleBox(s: State, revealed: set<nat>, pads: seq<bool>)
    requires InRange(s.progress)
  {
    forall i :: 0 <= i < |s.objs| && i in revealed && s.objs[i].spec.shape.InterBox? ==>
      !Stale(s.objs[i], s.progress, PadAt(pads, i))
  }

  /** The revealed objects that a paint marks whole. */
  function PaintedWhole(s: State, revealed: set<nat>, pads: seq<bool>): set<nat>
    requires InRange(s.progress)
  {
    set i | i in revealed && i < |s.objs| && RevealPainted(s.objs[i], s.progress, PadAt(pads, i))
  }

  function FollowTrail(s: State, t: Trail, c: Cmd): Trail
    requires InRange(s.progress)
  {
    match c
    case Service(_, _) => t.(revealed := t.revealed + Revealed(c, s.objs))
    case Textbox(_) => t.(revealed := t.revealed + Revealed(c, s.objs))
    case Paint(pads) =>
      if s.silent then
        Trail(t.clean && NoStaleBox(s, t.revealed, pads), {}, t.missed + t.revealed - PaintedWhole(s, t.revealed, pads))
      else t
    case Repaint => if s.silent then Trail(true, {}, {}) else t
    case Tick(_) => if s.silent then Trail(true, {}, {}) else t
    case Leave => t.(clean := false)
    case _ => t
  }

  function TrailOf(su: Setup, s: State, cmds: seq<Cmd>): Trail
    requires WellFormed(su, s)
    decreases |cmds|
  {
    if cmds == [] then Trail(false, {}, {})
    else
      var n := |cmds| - 1;
      FollowTrail(Run(su, s, cmds[..n]), TrailOf(su, s, cmds[..n]), cmds[n])
  }

  // ------------------------------------------------------------------------ the invariant

  /** Boxes have consistent caches; the rectangles of a cropped icon may lag behind. */
  ghost predicate Nearly(o: Obj, p: int, revealed: bool)
    requires InRange(p)
  {
    o.spec.silent && o.visible ==>
      if revealed then o.invalid else (o.spec.shape.InterBox? ==> Settled(o)) && (!o.invalid ==> Current(o, p))
  }

  ghost predicate AllNearly(s: State, revealed: set<nat>)
    requires InRange(s.progress)
  {
    forall i :: 0 <= i < |s.objs| ==> Nearly(s.objs[i], s.progress, i in revealed)
  }

  ghost predicate Between(t: Trail, r: set<nat>) {
    t.revealed <= r <= t.revealed + t.missed
  }

  /** The pixel is the composition of the scene without the revealed and some missed objects. */
  ghost predicate MixedAt(su: Setup, s: State, t: Trail, x: int, y: int)
    requires su.Valid() && su.g.IsBitmap(s.buf) && OnScreen(su.g.xres, su.g.yres, x, y)
  {
    exists r: set<nat> :: Between(t, r) && s.buf[y][x] == Compose(Shown(s.objs, r), x, y, su.bg[y][x])
  }

  ghost predicate Mixture(su: Setup, s: State, t: Trail)
    requires su.Valid() && su.g.IsBitmap(s.buf)
  {
    forall x, y :: OnScreen(su.g.xres, su.g.yres, x, y) && !Covered(s.damage, x, y) ==> MixedAt(su, s, t, x, y)
  }

  ghost predicate TrailInv(su: Setup, s: State, t: Trail) {
    && WellFormed(su, s)
    && (t.clean ==> s.silent && AllNearly(s, t.revealed) && Mixture(su, s, t))
  }

  // --------------------------------------------------------------------------------- paint

  lemma MarkKeepsNearly(w: int, h: int, o: Obj, p: int, pad: bool, revealed: bool)
    requires InRange(p) && Fits(w, h, o) && Nearly(o, p, revealed)
    requires revealed && o.spec.shape.InterBox? ==> !Stale(o, p, pad)
    ensures Nearly(Mark(o, p, false, pad).0, p, false)
  {
    hide Fits, Settled, Quiet, BoxAt, Interpolate, StripsX, StripsY;
    MarkKeepsSpec(o, p, false, pad);
    if o.spec.silent && o.visible && o.invalid {
      PrerenderCurrent(o, p, pad);
      CacheIgnoresInvalid(Prerender(o, p, false, pad).0, p);
      if o.spec.shape.InterBox? {
        PrerenderSettlesIff(w, h, o, p, pad);
      }
    }
  }

  /** The prerender routine always leaves the box or the crop of the current progress. */
  lemma PrerenderCurrent(o: Obj, p: int, pad: bool)
    requires InRange(p)
    ensures Current(Prerender(o, p, false, pad).0, p)
  {
    hide BoxAt, Interpolate, StripsX, StripsY;
    match o.spec.shape
    case CropIcon(_, _, _, _, from, to) => InterpolateStaysInBound(from, to, p);
    case _ =>
  }

  /** At a pixel it does not mark, an object that is not hidden draws as before. */
  lemma UnmarkedDraws(w: int, h: int, o: Obj, p: int, pad: bool, x: int, y: int, q: Pixel)
    requires InRange(p) && Fits(w, h, o) && Nearly(o, p, false)
    requires !Covered(Mark(o, p, false, pad).1, x, y)
    ensures Draw(Mark(o, p, false, pad).0, x, y, q) == Draw(o, x, y, q)
  {
    hide Fits, Settled, Current, BoxAt, Interpolate, Ink, StripsX, StripsY;
    if o.spec.silent && o.visible && o.invalid {
      DrawIgnoresInvalid(Prerender(o, p, false, pad).0, x, y, q);
      if o.spec.shape.CropIcon? {
        CropUnmarked(o, p, pad, x, y, q);
      } else {
        PlainIsSettled(o);
        DamageIsEnough(w, h, o, p, pad, x, y, q);
      }
    }
  }

  lemma PlainIsSettled(o: Obj)
    ensures o.spec.shape.PlainBox? || o.spec.shape.PlainIcon? ==> Settled(o)
  {
  }

  /** A cropped icon that moves marks the rectangle it leaves, whatever its cache holds. */
  lemma CropUnmarked(o: Obj, p: int, pad: bool, x: int, y: int, q: Pixel)
    requires InRange(p) && o.spec.shape.CropIcon? && !Covered(Prerender(o, p, false, pad).1, x, y)
    ensures Draw(Prerender(o, p, false, pad).0, x, y, q) == Draw(o, x, y, q)
  {
    hide Interpolate, InkIcon;
    var (o', d) := Prerender(o, p, false, pad);
    InterpolateStaysInBound(o.spec.shape.cropFrom, o.spec.shape.cropTo, p);
    if o' != o {
      assert d[0] == o.bnd && d[1] == o'.bnd;
    }
  }

  /** One object at a pixel that is not repainted: hidden before and after, or painted whole and
      so not there, or drawing as before. */
  lemma OneUnmarked(w: int, h: int, o: Obj, p: int, pad: bool, revealed: bool, hidden: bool, x: int, y: int)
    requires InRange(p) && Fits(w, h, o) && Nearly(o, p, revealed) && (revealed ==> hidden)
    requires !Covered(Mark(o, p, false, pad).1, x, y)
    ensures var o' := Mark(o, p, false, pad).0;
            var still := hidden && !(revealed && RevealPainted(o, p, pad));
            SameDraw(if still then o'.(visible := false) else o', if hidden then o.(visible := false) else o, x, y)
  {
    hide Fits, Mark, Nearly, RevealPainted, Ink;
    var o' := Mark(o, p, false, pad).0;
    forall q
      ensures !hidden ==> Draw(o', x, y, q) == Draw(o, x, y, q)
      ensures revealed && RevealPainted(o, p, pad) ==> Draw(o', x, y, q) == q
    {
      if !hidden {
        UnmarkedDraws(w, h, o, p, pad, x, y, q);
      } else if revealed && RevealPainted(o, p, pad) {
        PaintedWholeIsMarked(o, p, pad, x, y, q);
      }
    }
  }

  lemma PaintedWholeIsMarked(o: Obj, p: int, pad: bool, x: int, y: int, q: Pixel)
    requires InRange(p) && Nearly(o, p, true) && RevealPainted(o, p, pad)
    requires !Covered(Mark(o, p, false, pad).1, x, y)
    ensures Draw(Mark(o, p, false, pad).0, x, y, q) == q
  {
    hide Prerender, RepaintsWhole, Ink;
    MarkKeepsSpec(o, p, false, pad);
    if o.spec.silent && o.visible {
      MarksAllIff(o, p, pad);
    }
  }

  /** A pixel that is not repainted keeps its composition, less the objects that are painted whole. */
  lemma UnpaintedPixel(su: Setup, s: State, t: Trail, pads: seq<bool>, x: int, y: int, r: set<nat>)
    requires WellFormed(su, s) && AllNearly(s, t.revealed) && Between(t, r) && OnScreen(su.g.xres, su.g.yres, x, y)
    requires !Covered(MarkDamage(su.g, s.objs, s.progress, false, pads, |s.objs|), x, y)
    ensures Compose(Shown(MarkAll(s.objs, s.progress, false, pads), r - PaintedWhole(s, t.revealed, pads)), x, y, su.bg[y][x])
            == Compose(Shown(s.objs, r), x, y, su.bg[y][x])
  {
    hide Mark, Fits, MarkDamage, Draw, Compose, Nearly, Inside, RevealPainted;
    var left := r - PaintedWhole(s, t.revealed, pads);
    var a, b := Shown(MarkAll(s.objs, s.progress, false, pads), left), Shown(s.objs, r);
    forall i | 0 <= i < |a| ensures SameDraw(a[i], b[i], x, y) {
      UnmarkedObject(su, s, pads, i, x, y);
      OneUnmarked(su.g.xres, su.g.yres, s.objs[i], s.progress, PadAt(pads, i), i in t.revealed, i in r, x, y);
    }
    SameComposition(a, b, x, y, su.bg[y][x]);
  }

  lemma MixedWitness(su: Setup, s: State, t: Trail, x: int, y: int, r: set<nat>)
    requires su.Valid() && su.g.IsBitmap(s.buf) && OnScreen(su.g.xres, su.g.yres, x, y)
    requires Between(t, r) && s.buf[y][x] == Compose(Shown(s.objs, r), x, y, su.bg[y][x])
    ensures MixedAt(su, s, t, x, y)
  {
    hide Compose, Between;
  }

  /** What a paint does to one pixel of the back buffer, given what was on it. */
  lemma PaintKeepsMixture(su: Setup, s: State, t: Trail, pads: seq<bool>, x: int, y: int)
    requires TrailInv(su, s, t) && t.clean && OnScreen(su.g.xres, su.g.yres, x, y)
    ensures WellFormed(su, PartialPaint(su, s, pads))
    ensures MixedAt(su, PartialPaint(su, s, pads), Trail(true, {}, t.missed + t.revealed - PaintedWhole(s, t.revealed, pads)), x, y)
  {
    hide Fits, RenderObjs, MarkDamage, MarkAll, Compose, AllNearly, Inside, CopiedAll, PaintedWhole, Covered;
    PaintWellFormed(su, s, pads);
    RenderedPixel(su, s, false, pads, x, y);
    RenderedObjects(su, s, pads);
    var s', px := PartialPaint(su, s, pads), su.bg[y][x];
    var whole := PaintedWhole(s, t.revealed, pads);
    var t' := Trail(true, {}, t.missed + t.revealed - whole);
    if Covered(RenderObjs(su, s, false, pads).damage, x, y) {
      var none: set<nat> := {};
      assert Shown(s'.objs, none) == s'.objs;
      MixedWitness(su, s', t', x, y, none);
    } else {
      assert MixedAt(su, s, t, x, y);
      var r: set<nat> :| Between(t, r) && s.buf[y][x] == Compose(Shown(s.objs, r), x, y, px);
      UnpaintedPixel(su, s, t, pads, x, y, r);
      MixedWitness(su, s', t', x, y, r - whole);
    }
  }

  lemma RenderedObjects(su: Setup, s: State, pads: seq<bool>)
    requires WellFormed(su, s)
    ensures RenderObjs(su, s, false, pads).objs == MarkAll(s.objs, s.progress, false, pads)
    ensures su.g.IsBitmap(RenderObjs(su, s, false, pads).buf)
  {
    hide Normalize, MarkDamage, MarkAll, Fits, Inside;
  }

  lemma PaintKeepsTrail(su: Setup, s: State, t: Trail, pads: seq<bool>)
    requires TrailInv(su, s, t) && s.silent
    ensures TrailInv(su, PartialPaint(su, s, pads), FollowTrail(s, t, Paint(pads)))
  {
    hide Mark, Fits, Inside, Nearly, MixedAt, Redrawn, Normalize, MarkDamage, CopiedAll, PaintedWhole, Stale;
    PaintWellFormed(su, s, pads);
    var s' := PartialPaint(su, s, pads);
    if t.clean && NoStaleBox(s, t.revealed, pads) {
      forall i | 0 <= i < |s'.objs| ensures Nearly(s'.objs[i], s'.progress, false) {
        MarkKeepsNearly(su.g.xres, su.g.yres, s.objs[i], s.progress, PadAt(pads, i), i in t.revealed);
      }
      forall x, y | OnScreen(su.g.xres, su.g.yres, x, y)
        ensures MixedAt(su, s', FollowTrail(s, t, Paint(pads)), x, y)
      {
        PaintKeepsMixture(su, s, t, pads, x, y);
      }
    }
  }

  // -------------------------------------------------------------------- the other commands

  lemma RepaintStartsTrail(su: Setup, s: State)
    requires WellFormed(su, s) && s.silent
    ensures TrailInv(su, FullRepaint(su, s), Trail(true, {}, {}))
  {
    hide FullRepaint, Compose, Fits, Inside, Tracked, Shows;
    RepaintEstablishes(su, s);
    var s' := FullRepaint(su, s);
    forall i | 0 <= i < |s'.objs| ensures Nearly(s'.objs[i], s'.progress, false) {
      TrackedIsNearly(s'.objs[i], s'.progress, false);
    }
    forall x, y | OnScreen(su.g.xres, su.g.yres, x, y) && !Covered(s'.damage, x, y)
      ensures MixedAt(su, s', Trail(true, {}, {}), x, y)
    {
      assert Between(Trail(true, {}, {}), {});
      assert s'.buf[y][x] == Compose(Shown(s'.objs, {}), x, y, su.bg[y][x]);
    }
  }

  lemma TrackedIsNearly(o: Obj, p: int, revealed: bool)
    requires InRange(p) && Tracked(o, p, revealed)
    ensures Nearly(o, p, revealed)
  {
    hide Settled, Current;
  }

  lemma ToggleNearly(c: Cmd, o: Obj, p: int, before: bool, after: bool)
    requires InRange(p) && Nearly(o, p, before)
    requires after == (before || (!o.visible && Toggled(c, o).0.visible))
    ensures Nearly(Toggled(c, o).0, p, after)
  {
    hide BoxAt, Interpolate, Steps;
  }

  lemma ToggleMixed(su: Setup, s: State, t: Trail, c: Cmd, x: int, y: int)
    requires WellFormed(su, s) && OnScreen(su.g.xres, su.g.yres, x, y)
    requires !Covered(AfterToggle(su, s, c).damage, x, y) && (Covered(s.damage, x, y) || MixedAt(su, s, t, x, y))
    ensures MixedAt(su, AfterToggle(su, s, c), t.(revealed := t.revealed + Revealed(c, s.objs)), x, y)
  {
    hide Toggled, Fits, Inside, ToggleDamage, Compose, Draw, Covered;
    var s', px := AfterToggle(su, s, c), su.bg[y][x];
    var t' := t.(revealed := t.revealed + Revealed(c, s.objs));
    CoveredConcat(s.damage, ToggleDamage(su.g, c, s.objs, |s.objs|), x, y);
    var r: set<nat> :| Between(t, r) && s.buf[y][x] == Compose(Shown(s.objs, r), x, y, px);
    var r' := r + Revealed(c, s.objs);
    var a, b := Shown(s'.objs, r'), Shown(s.objs, r);
    forall i | 0 <= i < |s.objs| ensures SameDraw(a[i], b[i], x, y) {
      if Toggled(c, s.objs[i]).1 && Has(s.objs[i].bnd, x, y) {
        ToggleDamageHas(su.g, c, s.objs, |s.objs|, i, x, y);
      }
      forall q ensures Draw(a[i], x, y, q) == Draw(b[i], x, y, q) {
        ToggleDraws(c, s.objs[i], i in r, i in r', x, y, q);
      }
    }
    SameComposition(a, b, x, y, px);
    assert Between(t', r');
  }

  lemma ToggleKeepsTrail(su: Setup, s: State, t: Trail, c: Cmd)
    requires TrailInv(su, s, t)
    ensures TrailInv(su, AfterToggle(su, s, c), t.(revealed := t.revealed + Revealed(c, s.objs)))
  {
    hide Toggled, Fits, Inside, ToggleDamage, Nearly, MixedAt, Covered;
    ToggleWellFormed(su, s, c);
    if t.clean {
      var s' := AfterToggle(su, s, c);
      var t' := t.(revealed := t.revealed + Revealed(c, s.objs));
      forall i | 0 <= i < |s.objs| ensures Nearly(s'.objs[i], s'.progress, i in t'.revealed) {
        ToggleNearly(c, s.objs[i], s.progress, i in t.revealed, i in t'.revealed);
      }
      forall x, y | OnScreen(su.g.xres, su.g.yres, x, y) && !Covered(s'.damage, x, y) ensures MixedAt(su, s', t', x, y) {
        CoveredConcat(s.damage, ToggleDamage(su.g, c, s.objs, |s.objs|), x, y);
        ToggleMixed(su, s, t, c, x, y);
      }
    }
  }

  lemma ProgressNearly(o: Obj, p: int, p': int, revealed: bool)
    requires InRange(p) && InRange(p') && Nearly(o, p, revealed)
    ensures Nearly(ProgressTouch(o), p', revealed)
  {
    hide BoxAt, Interpolate;
  }

  lemma ProgressKeepsTrail(su: Setup, s: State, t: Trail, v: int)
    requires TrailInv(su, s, t)
    ensures TrailInv(su, Step(su, s, SetProgress(v)), t)
  {
    hide Fits, Inside, Compose, Nearly, Covered, TouchAll;
    StepStaysWellFormed(su, s, SetProgress(v));
    if t.clean {
      var s' := Step(su, s, SetProgress(v));
      forall i | 0 <= i < |s.objs| ensures Nearly(s'.objs[i], s'.progress, i in t.revealed) {
        ProgressNearly(s.objs[i], s.progress, s'.progress, i in t.revealed);
      }
      forall x, y | OnScreen(su.g.xres, su.g.yres, x, y) && !Covered(s'.damage, x, y) ensures MixedAt(su, s', t, x, y) {
        assert MixedAt(su, s, t, x, y);
        var r: set<nat> :| Between(t, r) && s.buf[y][x] == Compose(Shown(s.objs, r), x, y, su.bg[y][x]);
        ProgressBuffer(s.objs, s'.objs, r, x, y, su.bg[y][x]);
      }
    }
  }

  /** Steps that change neither objects nor damage nor back buffer keep the invariant. */
  lemma SameScene(su: Setup, s: State, s': State, t: Trail)
    requires TrailInv(su, s, t) && WellFormed(su, s')
    requires s'.objs == s.objs && s'.damage == s.damage && s'.buf == s.buf && s'.progress == s.progress
    requires t.clean ==> s'.silent
    ensures TrailInv(su, s', t)
  {
    hide Fits, Inside, Compose, Nearly, Covered;
    if t.clean {
      forall x, y | OnScreen(su.g.xres, su.g.yres, x, y) && !Covered(s'.damage, x, y) ensures MixedAt(su, s', t, x, y) {
        assert MixedAt(su, s, t, x, y);
      }
    }
  }

  lemma StepKeepsTrail(su: Setup, s: State, t: Trail, c: Cmd)
    requires TrailInv(su, s, t)
    ensures TrailInv(su, Step(su, s, c), FollowTrail(s, t, c))
  {
    hide Fits, Inside, AllNearly, Mixture, FullRepaint, PartialPaint, ToggleAll, ToggleDamage, FaintAll, TouchAll, Copied, NoStaleBox, PaintedWhole, Revealed;
    StepStaysWellFormed(su, s, c);
    match c
    case SetProgress(v) => ProgressKeepsTrail(su, s, t, v);
    case Service(_, _) => ToggleKeepsTrail(su, s, t, c);
    case Textbox(_) => ToggleKeepsTrail(su, s, t, c);
    case Paint(pads) =>
      if s.silent {
        PaintKeepsTrail(su, s, t, pads);
      }
    case Repaint =>
      if s.silent {
        RepaintStartsTrail(su, s);
      }
    case Tick(fades) =>
      FaintWellFormed(su, s, fades);
      if s.silent {
        RepaintStartsTrail(su, s.(objs := FaintAll(s.objs, fades)));
      }
    case _ => SameScene(su, s, Step(su, s, c), FollowTrail(s, t, c));
  }

  /** Every run keeps the trail invariant. */
  lemma {:induction false} RunKeepsTrail(su: Setup, s: State, cmds: seq<Cmd>)
    requires WellFormed(su, s)
    ensures TrailInv(su, Run(su, s, cmds), TrailOf(su, s, cmds))
    decreases |cmds|
  {
    hide TrailInv, Step, FollowTrail, WellFormed;
    if cmds == [] {
      EmptyTrail(su, s);
    } else {
      var n := |cmds| - 1;
      RunKeepsTrail(su, s, cmds[..n]);
      StepKeepsTrail(su, Run(su, s, cmds[..n]), TrailOf(su, s, cmds[..n]), cmds[n]);
    }
  }

  lemma EmptyTrail(su: Setup, s: State)
    requires WellFormed(su, s)
    ensures TrailInv(su, s, Trail(false, {}, {}))
  {
    hide Fits, Inside;
  }

  // ---------------------------------------------------------------------------- the result

  /** The visible objects whose cache is inconsistent. */
  ghost function Unsettled(objs: seq<Obj>): (out: set<nat>)
    ensures forall i: nat :: i in out <==> i < |objs| && objs[i].spec.silent && objs[i].visible && !Settled(objs[i])
  {
    set i: nat | i < |objs| && objs[i].spec.silent && objs[i].visible && !Settled(objs[i])
  }

  lemma CachedDraw(w: int, h: int, o: Obj, p: int, x: int, y: int, q: Pixel)
    requires w > 0 && h > 0 && InRange(p) && OnScreen(w, h, x, y) && Fits(w, h, o) && Nearly(o, p, false)
    requires o.spec.silent ==> !o.invalid
    ensures Draw(o, x, y, q) == if o.spec.silent && o.visible && !Settled(o) then StaleDraw(o, p, x, y, q) else DrawAt(o, p, x, y, q)
  {
    hide BoxAt, Interpolate, InkBox, InkIcon, Settled;
    if o.spec.silent && o.visible && !Settled(o) {
      PlainIsSettled(o);
    } else {
      CachedIsReference(w, h, o, p, x, y, q);
    }
  }

  lemma HiddenDraw(o: Obj, p: int, x: int, y: int, q: Pixel)
    requires InRange(p)
    ensures Draw(o.(visible := false), x, y, q) == DrawAt(o.(visible := false), p, x, y, q) == q
  {
  }

  lemma ShownIsPatched(su: Setup, s: State, r: set<nat>, x: int, y: int)
    requires WellFormed(su, s) && AllNearly(s, {}) && OnScreen(su.g.xres, su.g.yres, x, y)
    requires forall i :: 0 <= i < |s.objs| && s.objs[i].spec.silent ==> !s.objs[i].invalid
    ensures var shown := Shown(s.objs, r);
            Compose(shown, x, y, su.bg[y][x]) == Patched(shown, Unsettled(shown), s.progress, x, y, su.bg[y][x])
  {
    hide Fits, Inside, Compose, Patched, Nearly, Settled, Draw, DrawAt, StaleDraw;
    var shown := Shown(s.objs, r);
    forall i, q | 0 <= i < |shown|
      ensures Draw(shown[i], x, y, q) ==
              if i in Unsettled(shown) then StaleDraw(shown[i], s.progress, x, y, q) else DrawAt(shown[i], s.progress, x, y, q)
    {
      if i in r {
        HiddenDraw(s.objs[i], s.progress, x, y, q);
      } else {
        CachedDraw(su.g.xres, su.g.yres, s.objs[i], s.progress, x, y, q);
      }
    }
    CompositionIsPatched(shown, shown, Unsettled(shown), s.progress, x, y, su.bg[y][x]);
  }

  /** What a pixel may show: the cache-free picture without some of the missed objects, where a
      cropped icon that has not moved since it was loaded is drawn over its first rectangle. */
  ghost predicate ShowsMost(su: Setup, s: State, missed: set<nat>, x: int, y: int)
    requires WellFormed(su, s) && OnScreen(su.g.xres, su.g.yres, x, y)
  {
    exists r: set<nat> ::
      r <= missed && s.buf[y][x] == Patched(Shown(s.objs, r), Unsettled(Shown(s.objs, r)), s.progress, x, y, su.bg[y][x])
  }

  /** After a paint, however many reveals have been missed since the last repaint, every pixel of
      the back buffer is the picture of the current scene without some of the missed objects; no
      pixel shows anything else.  If none has been missed and all caches are consistent, this is the
      exact picture. */
  lemma PaintsEndMixed(su: Setup, s: State, cmds: seq<Cmd>, x: int, y: int)
    requires WellFormed(su, s) && cmds != [] && cmds[|cmds| - 1].Paint? && TrailOf(su, s, cmds).clean
    requires OnScreen(su.g.xres, su.g.yres, x, y)
    ensures ShowsMost(su, Run(su, s, cmds), TrailOf(su, s, cmds).missed, x, y)
    ensures TrailOf(su, s, cmds).missed == {} && Unsettled(Run(su, s, cmds).objs) == {} ==>
              Run(su, s, cmds).buf[y][x] == Reference(Run(su, s, cmds).objs, Run(su, s, cmds).progress, x, y, su.bg[y][x])
  {
    hide Fits, Inside, Compose, Patched, Reference, AllNearly, Run, TrailOf, PaintedWhole, NoStaleBox, PartialPaint;
    var n := |cmds| - 1;
    var s0, t0, e, t := Run(su, s, cmds[..n]), TrailOf(su, s, cmds[..n]), Run(su, s, cmds), TrailOf(su, s, cmds);
    RunKeepsTrail(su, s, cmds[..n]);
    RunKeepsTrail(su, s, cmds);
    LastPaint(su, s, cmds);
    var r: set<nat> :| Between(t, r) && e.buf[y][x] == Compose(Shown(e.objs, r), x, y, su.bg[y][x]);
    ShownIsPatched(su, e, r, x, y);
    if t.missed == {} && Unsettled(e.objs) == {} {
      assert Shown(e.objs, r) == e.objs;
      PatchedIsReference(e.objs, {}, e.progress, x, y, su.bg[y][x]);
    }
  }

  /** What the last paint of such a run leaves. */
  lemma LastPaint(su: Setup, s: State, cmds: seq<Cmd>)
    requires WellFormed(su, s) && cmds != [] && cmds[|cmds| - 1].Paint? && TrailOf(su, s, cmds).clean
    ensures var e, t := Run(su, s, cmds), TrailOf(su, s, cmds);
            && t.revealed == {} && e.damage == []
            && forall i :: 0 <= i < |e.objs| && e.objs[i].spec.silent ==> !e.objs[i].invalid
    ensures forall x, y :: OnScreen(su.g.xres, su.g.yres, x, y) ==> MixedAt(su, Run(su, s, cmds), TrailOf(su, s, cmds), x, y)
  {
    hide Fits, Inside, MixedAt, AllNearly, PaintedWhole, NoStaleBox, RenderObjs, CopiedAll;
    var n := |cmds| - 1;
    RunKeepsTrail(su, s, cmds[..n]);
    RunKeepsTrail(su, s, cmds);
    var s0 := Run(su, s, cmds[..n]);
    forall i | 0 <= i < |PartialPaint(su, s0, cmds[n].pads).objs|
      ensures PartialPaint(su, s0, cmds[n].pads).objs[i].spec.silent ==> !PartialPaint(su, s0, cmds[n].pads).objs[i].invalid
    {
      PaintClearsInvalid(su, s0, cmds[n].pads, i);
    }
  }

  lemma WholeIsNotStale(o: Obj, p: int, pad: bool)
    requires InRange(p) && RevealPainted(o, p, pad)
    ensures o.spec.shape.InterBox? ==> !Stale(o, p, pad)
  {
    hide BoxAt, Settled;
  }

  lemma StepKeepsCount(su: Setup, s: State, c: Cmd)
    requires WellFormed(su, s)
    ensures |Step(su, s, c).objs| == |s.objs|
  {
    hide Fits, Inside, Mark, Redrawn, Normalize, MarkDamage, ToggleDamage, Copied, CopiedAll, Toggled;
  }

  ghost predicate SameTrail(s: State, h: History, t: Trail) {
    && t.revealed == h.revealed && (forall i :: i in h.revealed ==> i < |s.objs|)
    && (h.synced ==> t.clean && t.missed == {})
  }

  lemma SameTrailNext(su: Setup, s: State, h: History, t: Trail, c: Cmd)
    requires WellFormed(su, s) && SameTrail(s, h, t)
    ensures SameTrail(Step(su, s, c), Follow(s, h, c), FollowTrail(s, t, c))
  {
    hide Fits, Inside, Step, RevealPainted, Stale, Toggled;
    StepKeepsCount(su, s, c);
    if c.Paint? && AllRevealsPainted(s, h, c.pads) {
      forall i | 0 <= i < |s.objs| && i in h.revealed
        ensures s.objs[i].spec.shape.InterBox? ==> !Stale(s.objs[i], s.progress, PadAt(c.pads, i))
      {
        WholeIsNotStale(s.objs[i], s.progress, PadAt(c.pads, i));
      }
      assert forall i :: i in h.revealed ==> i in PaintedWhole(s, h.revealed, c.pads);
    }
  }

  /** While the history is synchronised, the trail is clean and nothing has been missed. */
  lemma {:induction false} SyncedIsClean(su: Setup, s: State, cmds: seq<Cmd>)
    requires WellFormed(su, s)
    ensures SameTrail(Run(su, s, cmds), HistoryOf(su, s, cmds), TrailOf(su, s, cmds))
    decreases |cmds|
  {
    hide WellFormed, Step, SameTrail, Follow, FollowTrail;
    if cmds == [] {
      assert SameTrail(s, History(false, {}), Trail(false, {}, {})) by { EmptySame(s); }
    } else {
      var n := |cmds| - 1;
      SyncedIsClean(su, s, cmds[..n]);
      SameTrailNext(su, Run(su, s, cmds[..n]), HistoryOf(su, s, cmds[..n]), TrailOf(su, s, cmds[..n]), cmds[n]);
    }
  }

  lemma EmptySame(s: State)
    ensures SameTrail(s, History(false, {}), Trail(false, {}, {}))
  {
  }
}
