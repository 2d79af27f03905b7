/**
  Whole runs of the compositor: the two-level cache (scene to back buffer, back buffer to
  framebuffer) agrees with the full composition.

  A run is any sequence of commands from any well-formed state, whatever the buffers hold.  The
  history of a run notes two things.  `synced` says that a repaint has happened since the silent
  terminal last came to the front, and that no incremental paint since then has missed an object
  that had just become visible.  `revealed` has the objects that became visible since the last
  paint.
 */
module Runs {
  import opened Rects
  import opened Pixels
  import opened Boxes
  import opened Objects
  import opened Blit
  import opened Framebuffer
  import opened Scene

  datatype History = History(synced: bool, revealed: set<nat>)

  /** An object that was revealed is painted in full by the next incremental paint. */
  predicate RevealPainted(o: Obj, p: int, pad: bool)
    requires InRange(p)
  {
    o.spec.silent && o.visible ==> RepaintsWhole(o, p, pad)
  }

  predicate AllRevealsPainted(s: State, h: History, pads: seq<bool>)
    requires InRange(s.progress)
  {
    forall i :: 0 <= i < |s.objs| && i in h.revealed ==> RevealPainted(s.objs[i], s.progress, PadAt(pads, i))
  }

  function Revealed(c: Cmd, objs: seq<Obj>): set<nat> {
    set i: nat | i < |objs| && !objs[i].visible && Toggled(c, objs[i]).0.visible
  }

  function Follow(s: State, h: History, c: Cmd): History
    requires InRange(s.progress)
  {
    match c
    case Service(_, _) => h.(revealed := h.revealed + Revealed(c, s.objs))
    case Textbox(_) => h.(revealed := h.revealed + Revealed(c, s.objs))
    case Paint(pads) => if s.silent then History(h.synced && AllRevealsPainted(s, h, pads), {}) else h
    case Repaint => if s.silent then History(true, {}) else h
    case Tick(_) => if s.silent then History(true, {}) else h
    case Leave => h.(synced := false)
    case _ => h
  }

  /** The scene the back buffer shows: revealed objects are not in it yet. */
  function Shown(objs: seq<Obj>, revealed: set<nat>): (out: seq<Obj>)
    ensures |out| == |objs|
    ensures forall i :: 0 <= i < |objs| ==> out[i] == if i in revealed then objs[i].(visible := false) else objs[i]
  {
    seq(|objs|, i requires 0 <= i < |objs| => if i in revealed then objs[i].(visible := false) else objs[i])
  }

  /** An object that is on display: its cache is consistent, and unless it is invalidated the
      cache belongs to the current progress.  A revealed object is invalidated. */
  ghost predicate Tracked(o: Obj, p: int, revealed: bool)
    requires InRange(p)
  {
    o.spec.silent && o.visible ==>
      if revealed then o.invalid else Settled(o) && (!o.invalid ==> Current(o, p))
  }

  ghost predicate AllTracked(s: State, revealed: set<nat>)
    requires InRange(s.progress)
  {
    forall i :: 0 <= i < |s.objs| ==> Tracked(s.objs[i], s.progress, i in revealed)
  }

  /** Outside the pending rectangles the back buffer shows the composition of the shown scene. */
  ghost predicate BufferTracks(su: Setup, s: State, revealed: set<nat>)
    requires su.Valid() && su.g.IsBitmap(s.buf)
  {
    forall x, y {:trigger s.buf[y][x]} :: OnScreen(su.g.xres, su.g.yres, x, y) && !Covered(s.damage, x, y) ==>
      s.buf[y][x] == Compose(Shown(s.objs, revealed), x, y, su.bg[y][x])
  }

  /** The invariant of all runs. */
  ghost predicate Inv(su: Setup, s: State, h: History) {
    && WellFormed(su, s)
    && (h.synced ==>
          s.silent && AllTracked(s, h.revealed) && BufferTracks(su, s, h.revealed) && Shows(su.g, s.fb, s.buf))
  }

  // ---------------------------------------------------------------- full repaint

  lemma RepaintedObjectSettles(su: Setup, s: State, i: nat)
    requires WellFormed(su, s) && i < |s.objs|
    ensures var o := FullRepaint(su, s).objs[i];
            Tracked(o, s.progress, false) && (o.spec.silent ==> !o.invalid)
  {
    hide Prerender, Fits, Settled, Current, Redrawn, Normalize, MarkDamage, Copied;
    var o := s.objs[i].(invalid := true);
    InvalidIrrelevant(su.g.xres, su.g.yres, s.objs[i]);
    PrerenderSettles(su.g.xres, su.g.yres, o, s.progress, true, false);
    CacheIgnoresInvalid(Prerender(o, s.progress, true, false).0, s.progress);
  }

  lemma CacheIgnoresInvalid(o: Obj, p: int)
    requires InRange(p)
    ensures Settled(o.(invalid := false)) == Settled(o) == Settled(o.(invalid := true))
    ensures Current(o.(invalid := false), p) == Current(o, p) == Current(o.(invalid := true), p)
  {
  }

  lemma DrawIgnoresInvalid(o: Obj, x: int, y: int, q: Pixel)
    ensures Draw(o.(invalid := false), x, y, q) == Draw(o, x, y, q) == Draw(o.(invalid := true), x, y, q)
  {
    hide InkBox, InkIcon;
  }

  /** After a forced first pass a pixel outside the damage is drawn by no object. */
  lemma UnmarkedIsUndrawn(g: Geometry, objs: seq<Obj>, p: int, i: nat, x: int, y: int, v: Pixel)
    requires g.Valid() && InRange(p) && i < |objs| && OnScreen(g.xres, g.yres, x, y) && objs[i].invalid
    requires !Covered(MarkDamage(g, objs, p, true, [], |objs|), x, y)
    ensures Draw(Mark(objs[i], p, true, false).0, x, y, v) == v
  {
    hide Prerender, MarkDamage, Ink;
    var o := objs[i];
    if o.spec.silent && o.visible && Has(Mark(o, p, true, false).0.bnd, x, y) {
      ForcedMarksAll(o, p, false, x, y);
      MarkDamageHas(g, objs, p, true, [], |objs|, i, x, y);
      assert false;
    }
  }

  lemma RepaintBuffer(su: Setup, s: State, x: int, y: int)
    requires WellFormed(su, s) && OnScreen(su.g.xres, su.g.yres, x, y)
    ensures var s' := FullRepaint(su, s);
            s'.buf[y][x] == Compose(s'.objs, x, y, su.bg[y][x])
  {
    hide Mark, Fits, Redrawn, Normalize, MarkDamage, Copied, Draw, Compose, WellFormed;
    RepaintStart(su, s);
    var s0 := s.(buf := su.bg, objs := InvalidateAll(s.objs));
    RenderedPixel(su, s0, true, [], x, y);
    var s' := FullRepaint(su, s);
    if !Covered(s'.damage, x, y) {
      forall i, v | 0 <= i < |s'.objs| ensures Draw(s'.objs[i], x, y, v) == v {
        UnmarkedIsUndrawn(su.g, s0.objs, s.progress, i, x, y, v);
      }
      NothingDrawn(s'.objs, x, y, su.bg[y][x]);
    }
  }

  lemma RepaintStart(su: Setup, s: State)
    requires WellFormed(su, s)
    ensures WellFormed(su, s.(buf := su.bg, objs := InvalidateAll(s.objs)))
    ensures InRange(s.progress) && su.Valid()
  {
    hide Fits, Inside;
    forall i | 0 <= i < |s.objs| ensures Fits(su.g.xres, su.g.yres, InvalidateAll(s.objs)[i]) {
      InvalidIrrelevant(su.g.xres, su.g.yres, s.objs[i]);
    }
  }

  lemma RepaintWellFormed(su: Setup, s: State)
    requires WellFormed(su, s)
    ensures WellFormed(su, FullRepaint(su, s))
  {
    hide RenderObjs, Copied, Fits, Inside;
    RepaintStart(su, s);
    RenderWellFormed(su, s.(buf := su.bg, objs := InvalidateAll(s.objs)), true, []);
  }

  /** A full repaint establishes the invariant from any well-formed state, whatever the buffers,
      the caches and the pending rectangles hold. */
  lemma RepaintEstablishes(su: Setup, s: State)
    requires WellFormed(su, s) && s.silent
    ensures Inv(su, FullRepaint(su, s), History(true, {}))
    ensures forall i :: 0 <= i < |s.objs| && s.objs[i].spec.silent ==> !FullRepaint(su, s).objs[i].invalid
  {
    hide Compose, RenderObjs, Copied, Tracked, Mark;
    var s' := FullRepaint(su, s);
    RepaintWellFormed(su, s);
    RepaintFrame(su, s);
    forall i | 0 <= i < |s'.objs|
      ensures Tracked(s'.objs[i], s'.progress, false)
      ensures s.objs[i].spec.silent ==> !s'.objs[i].invalid
    {
      RepaintedObjectSettles(su, s, i);
    }
    forall x, y | OnScreen(su.g.xres, su.g.yres, x, y)
      ensures s'.buf[y][x] == Compose(Shown(s'.objs, {}), x, y, su.bg[y][x])
    {
      RepaintBuffer(su, s, x, y);
      assert Shown(s'.objs, {}) == s'.objs;
    }
    FullCopyShows(su.g, s.fb, s'.buf);
  }

  /** The parts of the state a repaint leaves alone. */
  lemma RepaintFrame(su: Setup, s: State)
    requires su.Valid() && InRange(s.progress)
    ensures var s' := FullRepaint(su, s);
            && |s'.objs| == |s.objs| && s'.progress == s.progress && s'.silent == s.silent
            && (forall i :: 0 <= i < |s.objs| ==> s'.objs[i].spec == s.objs[i].spec)
            && su.g.IsBitmap(s'.buf) && s'.fb == Copied(su.g, s.fb, s'.buf, WholeWindow(su.g))
  {
    hide Redrawn, Normalize, MarkDamage, Copied, Prerender;
    forall i | 0 <= i < |s.objs| ensures FullRepaint(su, s).objs[i].spec == s.objs[i].spec {
      MarkKeepsSpec(s.objs[i].(invalid := true), s.progress, true, false);
    }
  }

  /** A repaint leaves the pending rectangles in the list, together with the new ones. */
  lemma RepaintKeepsDamage(su: Setup, s: State, x: int, y: int)
    requires WellFormed(su, s) && OnScreen(su.g.xres, su.g.yres, x, y)
    ensures Covered(FullRepaint(su, s).damage, x, y) <==>
            || Covered(s.damage, x, y)
            || Covered(MarkDamage(su.g, InvalidateAll(s.objs), s.progress, true, [], |s.objs|), x, y)
  {
    hide Mark, Fits, Redrawn, Normalize, MarkDamage, Copied, Compose, WellFormed;
    RepaintStart(su, s);
    RenderedPixel(su, s.(buf := su.bg, objs := InvalidateAll(s.objs)), true, [], x, y);
  }

  lemma MarkKeepsSpec(o: Obj, p: int, force: bool, pad: bool)
    requires InRange(p)
    ensures Mark(o, p, force, pad).0.spec == o.spec && Mark(o, p, force, pad).0.visible == o.visible
    ensures o.spec.silent ==> !Mark(o, p, force, pad).0.invalid
    ensures Mark(o, p, force, pad).0.opacity == o.opacity
  {
    hide BoxAt, Interpolate;
  }

  // ------------------------------------------------------------ incremental paint

  /** One object through the first pass of an incremental paint: at a pixel it does not mark, it
      draws afterwards what the shown scene had there. */
  lemma MarkTracks(w: int, h: int, o: Obj, p: int, pad: bool, revealed: bool, x: int, y: int, q: Pixel)
    requires InRange(p) && Fits(w, h, o) && Tracked(o, p, revealed)
    requires revealed ==> RevealPainted(o, p, pad)
    requires !Covered(Mark(o, p, false, pad).1, x, y)
    ensures Draw(Mark(o, p, false, pad).0, x, y, q) == Draw(if revealed then o.(visible := false) else o, x, y, q)
  {
    hide Prerender, Fits, Settled, Current, RepaintsWhole, Ink;
    var o' := Mark(o, p, false, pad).0;
    MarkKeepsSpec(o, p, false, pad);
    if o.spec.silent && o.visible {
      DrawIgnoresInvalid(Prerender(o, p, false, pad).0, x, y, q);
      if revealed {
        MarksAllIff(o, p, pad);
      } else if o.invalid {
        DamageIsEnough(w, h, o, p, pad, x, y, q);
      }
    }
  }

  lemma MarkSettles(w: int, h: int, o: Obj, p: int, pad: bool, revealed: bool)
    requires InRange(p) && Fits(w, h, o) && Tracked(o, p, revealed)
    requires revealed ==> RevealPainted(o, p, pad)
    ensures Tracked(Mark(o, p, false, pad).0, p, false)
  {
    hide Prerender, Fits, Settled, Current, RepaintsWhole;
    MarkKeepsSpec(o, p, false, pad);
    if o.spec.silent && o.visible && o.invalid {
      PrerenderSettles(w, h, o, p, false, pad);
      CacheIgnoresInvalid(Prerender(o, p, false, pad).0, p);
    }
  }

  lemma PaintBuffer(su: Setup, s: State, h: History, pads: seq<bool>, x: int, y: int)
    requires Inv(su, s, h) && h.synced && AllRevealsPainted(s, h, pads) && OnScreen(su.g.xres, su.g.yres, x, y)
    ensures var s1 := RenderObjs(su, s, false, pads);
            && s1.buf[y][x] == Compose(s1.objs, x, y, su.bg[y][x])
            && (!Covered(s1.damage, x, y) ==> s1.buf[y][x] == s.buf[y][x])
  {
    hide Mark, Fits, Redrawn, Normalize, MarkDamage, Draw, Compose, Tracked, RevealPainted, Inside, Shows;
    RenderedPixel(su, s, false, pads, x, y);
    var s1 := RenderObjs(su, s, false, pads);
    if !Covered(s1.damage, x, y) {
      var before := Shown(s.objs, h.revealed);
      forall i | 0 <= i < |s.objs| ensures SameDraw(s1.objs[i], before[i], x, y) {
        UnmarkedTracks(su, s, h, pads, i, x, y);
      }
      SameComposition(s1.objs, before, x, y, su.bg[y][x]);
    }
  }

  lemma UnmarkedTracks(su: Setup, s: State, h: History, pads: seq<bool>, i: nat, x: int, y: int)
    requires WellFormed(su, s) && AllTracked(s, h.revealed) && AllRevealsPainted(s, h, pads)
    requires OnScreen(su.g.xres, su.g.yres, x, y) && i < |s.objs|
    requires !Covered(MarkDamage(su.g, s.objs, s.progress, false, pads, |s.objs|), x, y)
    ensures SameDraw(Mark(s.objs[i], s.progress, false, PadAt(pads, i)).0, Shown(s.objs, h.revealed)[i], x, y)
  {
    hide Mark, Fits, MarkDamage, Draw, Tracked, RevealPainted, Inside;
    if Covered(Mark(s.objs[i], s.progress, false, PadAt(pads, i)).1, x, y) {
      MarkDamageHas(su.g, s.objs, s.progress, false, pads, |s.objs|, i, x, y);
    }
    forall q ensures Draw(Mark(s.objs[i], s.progress, false, PadAt(pads, i)).0, x, y, q) == Draw(Shown(s.objs, h.revealed)[i], x, y, q) {
      MarkTracks(su.g.xres, su.g.yres, s.objs[i], s.progress, PadAt(pads, i), i in h.revealed, x, y, q);
    }
  }

  lemma PaintWellFormed(su: Setup, s: State, pads: seq<bool>)
    requires WellFormed(su, s)
    ensures WellFormed(su, PartialPaint(su, s, pads))
  {
    hide RenderObjs, CopiedAll, Fits, Inside;
    RenderWellFormed(su, s, false, pads);
  }

  /** An incremental paint that misses no revealed object keeps the invariant. */
  lemma PaintKeeps(su: Setup, s: State, h: History, pads: seq<bool>)
    requires Inv(su, s, h) && h.synced && AllRevealsPainted(s, h, pads)
    ensures Inv(su, PartialPaint(su, s, pads), History(true, {}))
  {
    hide Compose, CopiedAll, Tracked, Mark, Redrawn, Normalize, MarkDamage, Fits, Inside, PictureByte, Where, RevealPainted;
    var s1 := RenderObjs(su, s, false, pads);
    var s' := PartialPaint(su, s, pads);
    PaintWellFormed(su, s, pads);
    forall i | 0 <= i < |s'.objs| ensures Tracked(s'.objs[i], s'.progress, false) {
      MarkSettles(su.g.xres, su.g.yres, s.objs[i], s.progress, PadAt(pads, i), i in h.revealed);
    }
    forall x, y | OnScreen(su.g.xres, su.g.yres, x, y)
      ensures s1.buf[y][x] == Compose(Shown(s'.objs, {}), x, y, su.bg[y][x])
      ensures !Covered(s1.damage, x, y) ==> s1.buf[y][x] == s.buf[y][x]
    {
      PaintBuffer(su, s, h, pads, x, y);
      assert Shown(s'.objs, {}) == s'.objs;
    }
    PendingShows(su.g, s.fb, s.buf, s1.buf, s1.damage);
    CopyingDamageShows(su.g, s.fb, s1.buf, s1.damage);
  }

  /** A back buffer that changed only inside the pending rectangles still agrees with the
      framebuffer outside them. */
  lemma PendingShows(g: Geometry, fb: seq<byte>, before: Bitmap, after: Bitmap, rs: seq<Rect>)
    requires g.Valid() && g.IsBitmap(before) && g.IsBitmap(after) && Shows(g, fb, before)
    requires forall x, y {:trigger after[y][x]} :: OnScreen(g.xres, g.yres, x, y) && !Covered(rs, x, y) ==> after[y][x] == before[y][x]
    ensures ShowsOutside(g, fb, after, rs)
  {
    hide Where, Covered, EncodedByte;
    forall k | 0 <= k < |fb| && InWindow(g, k) && !Covered(rs, Where(g, k).x, Where(g, k).y)
      ensures fb[k] == PictureByte(g, after, k)
    {
      var w := Where(g, k);
      assert after[w.y][w.x] == before[w.y][w.x];
    }
  }

  // ----------------------------------------------------- changes between paints

  lemma ToggleFacts(w: int, h: int, c: Cmd, o: Obj)
    ensures var r := Toggled(c, o);
            && r.0.spec == o.spec && r.0.bnd == o.bnd && r.0.curr == o.curr && r.0.cropCurr == o.cropCurr
            && (Fits(w, h, o) ==> Fits(w, h, r.0))
            && (Settled(r.0) <==> Settled(o))
            && (!o.visible && r.0.visible ==> r.0.invalid)
            && (o.invalid ==> r.0.invalid)
            && (o.visible && !r.0.visible ==> r.1)
            && (!r.1 && o.visible ==> r.0.opacity == o.opacity)
  {
  }

  lemma ToggleTracked(c: Cmd, o: Obj, p: int, before: bool, after: bool)
    requires InRange(p) && Tracked(o, p, before)
    requires after == (before || (!o.visible && Toggled(c, o).0.visible))
    ensures Tracked(Toggled(c, o).0, p, after)
  {
    hide BoxAt, Interpolate;
  }

  /** Outside its bounding rectangle a toggled object draws as before; inside, unless it marks
      the rectangle, it draws as before or is newly revealed. */
  lemma ToggleDraws(c: Cmd, o: Obj, before: bool, after: bool, x: int, y: int, q: Pixel)
    requires after == (before || (!o.visible && Toggled(c, o).0.visible))
    requires Toggled(c, o).1 ==> !Has(o.bnd, x, y)
    ensures Draw(if after then Toggled(c, o).0.(visible := false) else Toggled(c, o).0, x, y, q) ==
            Draw(if before then o.(visible := false) else o, x, y, q)
  {
    hide InkBox, InkIcon;
  }

  lemma {:induction false} ToggleDamageHas(g: Geometry, c: Cmd, objs: seq<Obj>, n: nat, i: nat, x: int, y: int)
    requires g.Valid() && i < n <= |objs| && OnScreen(g.xres, g.yres, x, y)
    requires Toggled(c, objs[i]).1 && Has(objs[i].bnd, x, y)
    ensures Covered(ToggleDamage(g, c, objs, n), x, y)
  {
    hide Toggled, Sanitize;
    var d := if Toggled(c, objs[n - 1]).1 then [Sanitize(g.xres, g.yres, objs[n - 1].bnd)] else [];
    CoveredConcat(ToggleDamage(g, c, objs, n - 1), d, x, y);
    if i < n - 1 {
      ToggleDamageHas(g, c, objs, n - 1, i, x, y);
    } else {
      SanitizeCovers(g.xres, g.yres, objs[i].bnd);
      assert Has(d[0], x, y);
    }
  }

  lemma {:induction false} ToggleDamageInside(g: Geometry, c: Cmd, objs: seq<Obj>, n: nat)
    requires g.Valid() && n <= |objs|
    ensures AllInside(g, ToggleDamage(g, c, objs, n))
  {
    hide Toggled, Sanitize, Inside;
    if n > 0 {
      ToggleDamageInside(g, c, objs, n - 1);
      SanitizeCovers(g.xres, g.yres, objs[n - 1].bnd);
    }
  }

  function AfterToggle(su: Setup, s: State, c: Cmd): State {
    s.(objs := ToggleAll(c, s.objs), damage := s.damage + ToggleDamage(su.g, c, s.objs, |s.objs|))
  }

  lemma ToggleWellFormed(su: Setup, s: State, c: Cmd)
    requires WellFormed(su, s)
    ensures WellFormed(su, AfterToggle(su, s, c))
  {
    hide Toggled, Fits, Inside, ToggleDamage;
    ToggleDamageInside(su.g, c, s.objs, |s.objs|);
    forall i | 0 <= i < |s.objs| ensures Fits(su.g.xres, su.g.yres, ToggleAll(c, s.objs)[i]) {
      ToggleFacts(su.g.xres, su.g.yres, c, s.objs[i]);
    }
  }

  lemma ToggleBuffer(su: Setup, s: State, h: History, c: Cmd, x: int, y: int)
    requires WellFormed(su, s) && BufferTracks(su, s, h.revealed) && OnScreen(su.g.xres, su.g.yres, x, y)
    ensures var s' := AfterToggle(su, s, c);
            !Covered(s'.damage, x, y) ==>
              s'.buf[y][x] == Compose(Shown(s'.objs, h.revealed + Revealed(c, s.objs)), x, y, su.bg[y][x])
  {
    hide Toggled, Fits, Inside, ToggleDamage, Compose, Draw, Covered;
    var s' := AfterToggle(su, s, c);
    var d := ToggleDamage(su.g, c, s.objs, |s.objs|);
    CoveredConcat(s.damage, d, x, y);
    if !Covered(s'.damage, x, y) {
      var rev := h.revealed + Revealed(c, s.objs);
      var a, b := Shown(s'.objs, rev), Shown(s.objs, h.revealed);
      forall i | 0 <= i < |s.objs| ensures SameDraw(a[i], b[i], x, y) {
        if Toggled(c, s.objs[i]).1 && Has(s.objs[i].bnd, x, y) {
          ToggleDamageHas(su.g, c, s.objs, |s.objs|, i, x, y);
        }
        forall q ensures Draw(a[i], x, y, q) == Draw(b[i], x, y, q) {
          ToggleDraws(c, s.objs[i], i in h.revealed, i in rev, x, y, q);
        }
      }
      SameComposition(a, b, x, y, su.bg[y][x]);
    }
  }

  /** Visibility changes keep the invariant: what disappears is marked, what appears is revealed. */
  lemma ToggleKeeps(su: Setup, s: State, h: History, c: Cmd)
    requires Inv(su, s, h)
    ensures Inv(su, AfterToggle(su, s, c), h.(revealed := h.revealed + Revealed(c, s.objs)))
  {
    hide Toggled, Fits, Inside, ToggleDamage, Compose, Tracked, Shows;
    ToggleWellFormed(su, s, c);
    if h.synced {
      var s' := AfterToggle(su, s, c);
      var rev := h.revealed + Revealed(c, s.objs);
      forall i | 0 <= i < |s.objs| ensures Tracked(s'.objs[i], s'.progress, i in rev) {
        ToggleTracked(c, s.objs[i], s.progress, i in h.revealed, i in rev);
      }
      forall x, y | OnScreen(su.g.xres, su.g.yres, x, y) && !Covered(s'.damage, x, y)
        ensures s'.buf[y][x] == Compose(Shown(s'.objs, rev), x, y, su.bg[y][x])
      {
        ToggleBuffer(su, s, h, c, x, y);
      }
    }
  }

  lemma ProgressTracked(w: int, h: int, o: Obj, p: int, p': int, revealed: bool)
    requires InRange(p) && InRange(p')
    ensures Tracked(o, p, revealed) ==> Tracked(ProgressTouch(o), p', revealed)
    ensures Fits(w, h, ProgressTouch(o)) == Fits(w, h, o)
  {
    hide BoxAt, Interpolate;
  }

  /** A progress change keeps the invariant: it moves nothing, it only invalidates. */
  lemma ProgressKeeps(su: Setup, s: State, h: History, v: int)
    requires Inv(su, s, h)
    ensures Inv(su, Step(su, s, SetProgress(v)), h)
  {
    hide Fits, Inside, Compose, Tracked, Shows;
    var s' := Step(su, s, SetProgress(v));
    forall i | 0 <= i < |s.objs|
      ensures Fits(su.g.xres, su.g.yres, s'.objs[i])
      ensures h.synced ==> Tracked(s'.objs[i], s'.progress, i in h.revealed)
    {
      ProgressTracked(su.g.xres, su.g.yres, s.objs[i], s.progress, s'.progress, i in h.revealed);
    }
    if h.synced {
      forall x, y | OnScreen(su.g.xres, su.g.yres, x, y) && !Covered(s.damage, x, y)
        ensures s.buf[y][x] == Compose(Shown(s'.objs, h.revealed), x, y, su.bg[y][x])
      {
        ProgressBuffer(s.objs, s'.objs, h.revealed, x, y, su.bg[y][x]);
      }
    }
  }

  lemma ProgressBuffer(a: seq<Obj>, b: seq<Obj>, revealed: set<nat>, x: int, y: int, px: Pixel)
    requires |a| == |b| && forall i :: 0 <= i < |a| ==> b[i] == ProgressTouch(a[i])
    ensures Compose(Shown(b, revealed), x, y, px) == Compose(Shown(a, revealed), x, y, px)
  {
    hide Compose, Draw;
    var u, v := Shown(a, revealed), Shown(b, revealed);
    forall i | 0 <= i < |a| ensures SameDraw(v[i], u[i], x, y) {
      forall q ensures Draw(v[i], x, y, q) == Draw(u[i], x, y, q) {
        DrawIgnoresInvalid(u[i], x, y, q);
        assert v[i] == u[i] || v[i] == u[i].(invalid := true);
      }
    }
    SameComposition(v, u, x, y, px);
  }

  lemma FaintWellFormed(su: Setup, s: State, fades: seq<Fade>)
    requires WellFormed(su, s)
    ensures WellFormed(su, s.(objs := FaintAll(s.objs, fades)))
  {
    hide Inside;
    forall i | 0 <= i < |s.objs| ensures Fits(su.g.xres, su.g.yres, FaintAll(s.objs, fades)[i]) {
      assert Fits(su.g.xres, su.g.yres, s.objs[i]);
    }
  }

  // ----------------------------------------------------------------------- runs

  /** Every command keeps the invariant. */
  lemma StepKeeps(su: Setup, s: State, h: History, c: Cmd)
    requires Inv(su, s, h)
    ensures Inv(su, Step(su, s, c), Follow(s, h, c))
  {
    hide Fits, Inside, Compose, AllTracked, BufferTracks, FullRepaint, PartialPaint, ToggleAll, ToggleDamage,
      FaintAll, Copied, AllRevealsPainted, Shows;
    match c
    case SetProgress(v) => ProgressKeeps(su, s, h, v);
    case Service(_, _) => ToggleKeeps(su, s, h, c);
    case Textbox(_) => ToggleKeeps(su, s, h, c);
    case Paint(pads) =>
      if s.silent {
        PaintWellFormed(su, s, pads);
        if h.synced && AllRevealsPainted(s, h, pads) {
          PaintKeeps(su, s, h, pads);
        }
      }
    case Repaint =>
      if s.silent {
        RepaintEstablishes(su, s);
      }
    case PaintArea(x0, y0, x1, y1) =>
      if s.silent && h.synced {
        CopyKeepsShowing(su.g, s.fb, s.buf, OrderedArea(su.g, x0, y0, x1, y1));
      }
      PaintAreaKeeps(su, s, h, c);
    case Tick(fades) =>
      FaintWellFormed(su, s, fades);
      if s.silent {
        RepaintEstablishes(su, s.(objs := FaintAll(s.objs, fades)));
      }
    case Leave =>
    case Enter =>
    case Console(bytes) =>
  }

  lemma PaintAreaKeeps(su: Setup, s: State, h: History, c: Cmd)
    requires Inv(su, s, h) && c.PaintArea?
    ensures Inv(su, Step(su, s, c), h)
  {
    hide Fits, Inside, Compose, Copied, Tracked;
    if s.silent && h.synced {
      CopyKeepsShowing(su.g, s.fb, s.buf, OrderedArea(su.g, c.x0, c.y0, c.x1, c.y1));
    }
  }

  function Run(su: Setup, s: State, cmds: seq<Cmd>): State
    requires WellFormed(su, s)
    ensures WellFormed(su, Run(su, s, cmds))
    decreases |cmds|
  {
    if cmds == [] then s
    else
      var n := |cmds| - 1;
      StepKeeps(su, Run(su, s, cmds[..n]), History(false, {}), cmds[n]);
      Step(su, Run(su, s, cmds[..n]), cmds[n])
  }

  lemma RunAppend(su: Setup, s: State, cmds: seq<Cmd>, c: Cmd)
    requires WellFormed(su, s)
    ensures Run(su, s, cmds + [c]) == Step(su, Run(su, s, cmds), c)
  {
    hide AllInside, AllFit, Step;
    assert (cmds + [c])[..|cmds|] == cmds;
  }

  /** The history of a run: it starts unsynchronised. */
  function HistoryOf(su: Setup, s: State, cmds: seq<Cmd>): History
    requires WellFormed(su, s)
    decreases |cmds|
  {
    if cmds == [] then History(false, {})
    else
      var n := |cmds| - 1;
      Follow(Run(su, s, cmds[..n]), HistoryOf(su, s, cmds[..n]), cmds[n])
  }

  /** Every run from a well-formed state keeps the invariant. */
  lemma {:induction false} RunKeeps(su: Setup, s: State, cmds: seq<Cmd>)
    requires WellFormed(su, s)
    ensures Inv(su, Run(su, s, cmds), HistoryOf(su, s, cmds))
    decreases |cmds|
  {
    hide Inv, Step, Follow, WellFormed;
    if cmds == [] {
      StartInv(su, s);
    } else {
      var n := |cmds| - 1;
      RunKeeps(su, s, cmds[..n]);
      StepKeeps(su, Run(su, s, cmds[..n]), HistoryOf(su, s, cmds[..n]), cmds[n]);
    }
  }

  lemma StartInv(su: Setup, s: State)
    requires WellFormed(su, s)
    ensures Inv(su, s, History(false, {}))
  {
  }

  /** When no object is invalidated or waiting to be revealed and nothing is pending, the
      invariant says that the screen is exact. */
  lemma SettledIsExact(su: Setup, s: State)
    requires Inv(su, s, History(true, {}))
    requires forall i :: 0 <= i < |s.objs| && s.objs[i].spec.silent ==> !s.objs[i].invalid
    requires forall x, y :: OnScreen(su.g.xres, su.g.yres, x, y) ==>
               s.buf[y][x] == Compose(s.objs, x, y, su.bg[y][x])
    ensures Exact(su, s)
  {
    hide Fits, Inside, Compose, Settled, Current, Shows, Draw, DrawAt, Reference;
    forall x, y | OnScreen(su.g.xres, su.g.yres, x, y)
      ensures s.buf[y][x] == Reference(s.objs, s.progress, x, y, su.bg[y][x])
    {
      forall i | 0 <= i < |s.objs| ensures DrawsReference(s.objs[i], s.objs[i], s.progress, x, y) {
        forall q ensures Draw(s.objs[i], x, y, q) == DrawAt(s.objs[i], s.progress, x, y, q) {
          assert Tracked(s.objs[i], s.progress, false);
          CachedIsReference(su.g.xres, su.g.yres, s.objs[i], s.progress, x, y, q);
        }
      }
      CompositionIsReference(s.objs, s.objs, s.progress, x, y, su.bg[y][x]);
    }
  }

  /** A full repaint gives the exact picture from any well-formed state. */
  lemma RepaintIsExact(su: Setup, s: State)
    requires WellFormed(su, s) && s.silent
    ensures WellFormed(su, FullRepaint(su, s)) && Exact(su, FullRepaint(su, s))
  {
    hide Fits, Inside, Compose, FullRepaint, Shows, Tracked, Exact;
    var s' := FullRepaint(su, s);
    RepaintEstablishes(su, s);
    RepaintFrame(su, s);
    forall x, y | OnScreen(su.g.xres, su.g.yres, x, y)
      ensures s'.buf[y][x] == Compose(s'.objs, x, y, su.bg[y][x])
    {
      RepaintBuffer(su, s, x, y);
    }
    SettledIsExact(su, s');
  }

  /** An incremental paint in a synchronised state that misses no revealed object gives the
      exact picture. */
  lemma PaintIsExact(su: Setup, s: State, h: History, pads: seq<bool>)
    requires Inv(su, s, h) && h.synced && AllRevealsPainted(s, h, pads)
    ensures WellFormed(su, PartialPaint(su, s, pads)) && Exact(su, PartialPaint(su, s, pads))
  {
    hide Fits, Inside, Compose, RenderObjs, Shows, Tracked, CopiedAll, Exact, RevealPainted;
    var s' := PartialPaint(su, s, pads);
    PaintKeeps(su, s, h, pads);
    forall x, y | OnScreen(su.g.xres, su.g.yres, x, y)
      ensures s'.buf[y][x] == Compose(s'.objs, x, y, su.bg[y][x])
    {
      PaintBuffer(su, s, h, pads, x, y);
    }
    forall i | 0 <= i < |s'.objs| && s'.objs[i].spec.silent ensures !s'.objs[i].invalid {
      PaintClearsInvalid(su, s, pads, i);
    }
    SettledIsExact(su, s');
  }

  lemma PaintClearsInvalid(su: Setup, s: State, pads: seq<bool>, i: nat)
    requires WellFormed(su, s) && i < |PartialPaint(su, s, pads).objs|
    ensures var o := PartialPaint(su, s, pads).objs[i]; o.spec.silent ==> !o.invalid
  {
    hide Mark, Fits, Inside, MarkDamage, Normalize, Redrawn, CopiedAll;
    MarkKeepsSpec(s.objs[i], s.progress, false, PadAt(pads, i));
  }

  predicate Paints(c: Cmd) {
    c.Paint? || c.Repaint? || c.Tick?
  }

  /** Main result.  Take any run from any well-formed state that ends in a paint, a repaint or an
      animation round while the silent terminal is in front.  If its history is synchronised, the
      back buffer is the full composition of the scene and the framebuffer window shows it; a run
      that ends in a repaint or an animation round always is. */
  lemma RunsEndExact(su: Setup, s: State, cmds: seq<Cmd>)
    requires WellFormed(su, s) && cmds != [] && Paints(cmds[|cmds| - 1]) && Run(su, s, cmds).silent
    ensures HistoryOf(su, s, cmds).synced ==> Exact(su, Run(su, s, cmds))
    ensures !cmds[|cmds| - 1].Paint? ==> HistoryOf(su, s, cmds).synced
  {
    hide Inv, Exact, FullRepaint, PartialPaint, FaintAll, AllRevealsPainted, WellFormed;
    var n := |cmds| - 1;
    var s0, h0 := Run(su, s, cmds[..n]), HistoryOf(su, s, cmds[..n]);
    RunKeeps(su, s, cmds[..n]);
    InvWellFormed(su, s0, h0);
    LastStep(su, s0, h0, cmds[n]);
  }

  lemma InvWellFormed(su: Setup, s: State, h: History)
    requires Inv(su, s, h)
    ensures WellFormed(su, s) && (h.synced ==> s.silent)
  {
  }

  lemma LastStep(su: Setup, s: State, h: History, c: Cmd)
    requires Inv(su, s, h) && Paints(c) && Step(su, s, c).silent
    ensures WellFormed(su, Step(su, s, c))
    ensures Follow(s, h, c).synced ==> Exact(su, Step(su, s, c))
    ensures !c.Paint? ==> Follow(s, h, c).synced
  {
    hide Exact, FullRepaint, PartialPaint, FaintAll, AllRevealsPainted, Fits, Inside, Shows, AllTracked, BufferTracks;
    StepKeeps(su, s, h, c);
    StepSilent(su, s, c);
    match c
    case Paint(pads) =>
      if h.synced && AllRevealsPainted(s, h, pads) {
        PaintIsExact(su, s, h, pads);
      }
    case Repaint => RepaintIsExact(su, s);
    case Tick(fades) =>
      FaintWellFormed(su, s, fades);
      RepaintIsExact(su, s.(objs := FaintAll(s.objs, fades)));
    case _ =>
  }

  lemma StepSilent(su: Setup, s: State, c: Cmd)
    requires WellFormed(su, s) && Paints(c)
    ensures Step(su, s, c).silent == s.silent
  {
    hide Redrawn, Normalize, MarkDamage, MarkAll, CopiedAll, Copied, FaintAll, Fits, Inside, InvalidateAll;
  }

  /** Between paints a synchronised back buffer can differ from the full composition only inside
      the pending rectangles and inside the cached or the new area of an invalidated object. */
  lemma BetweenPaints(su: Setup, s: State, cmds: seq<Cmd>, x: int, y: int)
    requires WellFormed(su, s) && HistoryOf(su, s, cmds).synced && OnScreen(su.g.xres, su.g.yres, x, y)
    ensures var e := Run(su, s, cmds);
            !Covered(e.damage, x, y)
            && (forall i :: 0 <= i < |e.objs| && e.objs[i].invalid && e.objs[i].visible ==>
                  !Has(e.objs[i].bnd, x, y) && !Has(Area(e.objs[i].spec.shape, e.progress), x, y))
            ==> e.buf[y][x] == Reference(e.objs, e.progress, x, y, su.bg[y][x])
    ensures var e := Run(su, s, cmds); Shows(su.g, e.fb, e.buf)
  {
    hide Fits, Inside, Compose, Settled, Current, Shows, Ink, InkAt, Reference, Area, Covered;
    RunKeeps(su, s, cmds);
    var e, h := Run(su, s, cmds), HistoryOf(su, s, cmds);
    if !Covered(e.damage, x, y)
       && forall i :: 0 <= i < |e.objs| && e.objs[i].invalid && e.objs[i].visible ==>
            !Has(e.objs[i].bnd, x, y) && !Has(Area(e.objs[i].spec.shape, e.progress), x, y)
    {
      var shown := Shown(e.objs, h.revealed);
      forall i | 0 <= i < |e.objs| ensures DrawsReference(shown[i], e.objs[i], e.progress, x, y) {
        forall q ensures Draw(shown[i], x, y, q) == DrawAt(e.objs[i], e.progress, x, y, q) {
          assert Tracked(e.objs[i], e.progress, i in h.revealed);
          if e.objs[i].visible && !e.objs[i].invalid {
            CachedIsReference(su.g.xres, su.g.yres, e.objs[i], e.progress, x, y, q);
          }
        }
      }
      CompositionIsReference(shown, e.objs, e.progress, x, y, su.bg[y][x]);
    }
  }

  // --------------------------------------------------- progress and terminal over a run

  /** The value of the last progress command of a run. */
  function LastProgress(cmds: seq<Cmd>): Option<int> {
    if cmds == [] then None
    else if cmds[|cmds| - 1].SetProgress? then Some(cmds[|cmds| - 1].value)
    else LastProgress(cmds[..|cmds| - 1])
  }

  /** The last switch of the terminal in a run: to the silent one, or away from it. */
  function LastSwitch(cmds: seq<Cmd>): Option<bool> {
    if cmds == [] then None
    else if cmds[|cmds| - 1].Enter? || cmds[|cmds| - 1].Leave? then Some(cmds[|cmds| - 1].Enter?)
    else LastSwitch(cmds[..|cmds| - 1])
  }

  lemma StepFrame(su: Setup, s: State, c: Cmd)
    requires WellFormed(su, s)
    ensures var s' := Step(su, s, c);
            && (if c.SetProgress? then NearestProgress(s'.progress, c.value) else s'.progress == s.progress)
            && s'.silent == (if c.Enter? || c.Leave? then c.Enter? else s.silent)
  {
    hide Redrawn, Normalize, MarkDamage, MarkAll, CopiedAll, Copied, FaintAll, Fits, Inside, InvalidateAll, ClampProgress,
      ToggleAll, ToggleDamage, TouchAll, NearestProgress;
    if c.SetProgress? {
      ClampIsNearestProgress(c.value);
    }
  }

  /** The progress after a run is the value in range nearest to that of the last progress command,
      and the silent terminal is in front if the last switch says so. */
  lemma {:induction false} RunProgress(su: Setup, s: State, cmds: seq<Cmd>)
    requires WellFormed(su, s)
    ensures var e := Run(su, s, cmds);
            && (if LastProgress(cmds).Some? then NearestProgress(e.progress, LastProgress(cmds).value) else e.progress == s.progress)
            && e.silent == (if LastSwitch(cmds).Some? then LastSwitch(cmds).value else s.silent)
    decreases |cmds|
  {
    hide WellFormed, Step, NearestProgress;
    if cmds != [] {
      var n := |cmds| - 1;
      RunProgress(su, s, cmds[..n]);
      StepFrame(su, Run(su, s, cmds[..n]), cmds[n]);
    }
  }

  // ------------------------------------------- the window between the first repaint and a switch

  /** Whether a repaint has happened since the silent terminal last came to the front.  Unlike
      `synced` this survives a missed reveal. */
  function FramedNext(s: State, framed: bool, c: Cmd): bool {
    match c
    case Repaint => framed || s.silent
    case Tick(_) => framed || s.silent
    case Leave => false
    case _ => framed
  }

  function Framed(su: Setup, s: State, cmds: seq<Cmd>): bool
    requires WellFormed(su, s)
    decreases |cmds|
  {
    if cmds == [] then false
    else
      var n := |cmds| - 1;
      FramedNext(Run(su, s, cmds[..n]), Framed(su, s, cmds[..n]), cmds[n])
  }

  lemma PaintKeepsWindow(su: Setup, s: State, pads: seq<bool>)
    requires WellFormed(su, s) && Shows(su.g, s.fb, s.buf)
    ensures Shows(su.g, PartialPaint(su, s, pads).fb, PartialPaint(su, s, pads).buf)
  {
    hide RenderObjs, CopiedAll, Fits, Inside, Covered, Shows, ShowsOutside, Compose, MarkDamage;
    RenderWellFormed(su, s, false, pads);
    var s1 := RenderObjs(su, s, false, pads);
    forall x, y {:trigger s1.buf[y][x]} | OnScreen(su.g.xres, su.g.yres, x, y) && !Covered(s1.damage, x, y)
      ensures s1.buf[y][x] == s.buf[y][x]
    {
      RenderedPixel(su, s, false, pads, x, y);
    }
    RenderKeepsFb(su, s, false, pads);
    PendingShows(su.g, s.fb, s.buf, s1.buf, s1.damage);
    CopyingDamageShows(su.g, s.fb, s1.buf, s1.damage);
  }

  /** Rendering neither reads nor changes the framebuffer. */
  lemma RenderKeepsFb(su: Setup, s: State, force: bool, pads: seq<bool>)
    requires su.Valid() && su.g.IsBitmap(s.buf) && InRange(s.progress)
    ensures RenderObjs(su, s, force, pads).fb == s.fb
    ensures forall fb :: RenderObjs(su, s.(fb := fb), force, pads) == RenderObjs(su, s, force, pads).(fb := fb)
  {
    hide MarkAll, MarkDamage, Redrawn;
  }

  lemma RepaintShows(su: Setup, s: State)
    requires WellFormed(su, s)
    ensures FullRepaint(su, s).silent == s.silent && su.g.IsBitmap(FullRepaint(su, s).buf)
    ensures Shows(su.g, FullRepaint(su, s).fb, FullRepaint(su, s).buf)
  {
    hide FullRepaint, Shows;
    RepaintFrame(su, s);
    FullCopyShows(su.g, s.fb, FullRepaint(su, s).buf);
  }

  lemma StepKeepsWindow(su: Setup, s: State, framed: bool, c: Cmd)
    requires WellFormed(su, s) && (framed ==> s.silent && Shows(su.g, s.fb, s.buf))
    ensures WellFormed(su, Step(su, s, c))
    ensures FramedNext(s, framed, c) ==> Step(su, s, c).silent && Shows(su.g, Step(su, s, c).fb, Step(su, s, c).buf)
  {
    hide PartialPaint, FullRepaint, Shows, Copied, Fits, Inside, ToggleAll, ToggleDamage, FaintAll, TouchAll;
    StepStaysWellFormed(su, s, c);
    match c
    case Paint(pads) =>
      if framed {
        PaintKeepsWindow(su, s, pads);
        StepSilent(su, s, c);
      }
    case Repaint =>
      if s.silent {
        RepaintShows(su, s);
      }
    case Tick(fades) =>
      if s.silent {
        FaintWellFormed(su, s, fades);
        RepaintShows(su, s.(objs := FaintAll(s.objs, fades)));
      }
    case PaintArea(x0, y0, x1, y1) =>
      if framed {
        CopyKeepsShowing(su.g, s.fb, s.buf, OrderedArea(su.g, x0, y0, x1, y1));
      }
    case _ =>
  }

  lemma StepStaysWellFormed(su: Setup, s: State, c: Cmd)
    requires WellFormed(su, s)
    ensures WellFormed(su, Step(su, s, c))
  {
    hide Step, Fits, Inside, Follow;
    StepKeeps(su, s, History(false, {}), c);
  }

  /** From the first repaint in front until the silent terminal is released, the window shows the
      back buffer, whatever has been revealed, missed or left pending. */
  lemma {:induction false} WindowShowsBuffer(su: Setup, s: State, cmds: seq<Cmd>)
    requires WellFormed(su, s)
    ensures var e := Run(su, s, cmds);
            Framed(su, s, cmds) ==> e.silent && Shows(su.g, e.fb, e.buf)
    decreases |cmds|
  {
    hide WellFormed, Step, Shows, FramedNext;
    if cmds != [] {
      var n := |cmds| - 1;
      WindowShowsBuffer(su, s, cmds[..n]);
      StepKeepsWindow(su, Run(su, s, cmds[..n]), Framed(su, s, cmds[..n]), cmds[n]);
    }
  }

  /** A run that begins with a repaint in front and never leaves the terminal is such a run to
      its end. */
  lemma {:induction false} RepaintFrames(su: Setup, s: State, cmds: seq<Cmd>)
    requires WellFormed(su, s) && s.silent && cmds != [] && cmds[0].Repaint?
    requires forall i :: 0 <= i < |cmds| ==> !cmds[i].Leave?
    ensures Framed(su, s, cmds)
    decreases |cmds|
  {
    hide WellFormed, Step;
    var n := |cmds| - 1;
    if n > 0 {
      RepaintFrames(su, s, cmds[..n]);
    }
  }

  /** A synchronised run is framed. */
  lemma {:induction false} SyncedIsFramed(su: Setup, s: State, cmds: seq<Cmd>)
    requires WellFormed(su, s)
    ensures HistoryOf(su, s, cmds).synced ==> Framed(su, s, cmds)
    decreases |cmds|
  {
    hide WellFormed, Step, AllRevealsPainted;
    if cmds != [] {
      SyncedIsFramed(su, s, cmds[..|cmds| - 1]);
    }
  }

  // ------------------------------------------------------- bytes outside the window

  /** No command but drawing by others touches a byte of the framebuffer outside the window. */
  lemma StepKeepsMargins(su: Setup, s: State, c: Cmd)
    requires WellFormed(su, s) && (c.Console? ==> s.silent)
    ensures SameMargins(su.g, s.fb, Step(su, s, c).fb)
  {
    hide Where, PictureByte, CopiedAll, RenderObjs, AllInside, AllFit, ToggleAll, ToggleDamage, FaintAll, TouchAll;
    match c
    case Paint(pads) =>
      if s.silent {
        RenderWellFormed(su, s, false, pads);
        var s1 := RenderObjs(su, s, false, pads);
        CopyKeepsMargins(su.g, s.fb, s1.buf, s1.damage);
      }
    case Repaint =>
      if s.silent {
        RepaintMargins(su, s);
      }
    case PaintArea(x0, y0, x1, y1) =>
      if s.silent {
        OneCopyKeepsMargins(su.g, s.fb, s.buf, OrderedArea(su.g, x0, y0, x1, y1));
      }
    case Tick(fades) =>
      if s.silent {
        FaintWellFormed(su, s, fades);
        RepaintMargins(su, s.(objs := FaintAll(s.objs, fades)));
      }
    case _ =>
  }

  lemma RepaintMargins(su: Setup, s: State)
    requires WellFormed(su, s)
    ensures SameMargins(su.g, s.fb, FullRepaint(su, s).fb)
  {
    hide FullRepaint, SameMargins;
    RepaintFrame(su, s);
    OneCopyKeepsMargins(su.g, s.fb, FullRepaint(su, s).buf, WholeWindow(su.g));
  }

  lemma OneCopyKeepsMargins(g: Geometry, fb: seq<byte>, img: Bitmap, r: Rect)
    requires g.Valid() && g.IsBitmap(img)
    ensures SameMargins(g, fb, Copied(g, fb, img, r))
  {
    hide Where, PictureByte, Has;
  }

  lemma CopyKeepsMargins(g: Geometry, fb: seq<byte>, img: Bitmap, rs: seq<Rect>)
    requires g.Valid() && g.IsBitmap(img)
    ensures SameMargins(g, fb, CopiedAll(g, fb, img, rs))
  {
    hide Where, PictureByte, CopiedAll, Covered;
    forall k | 0 <= k < |fb| && !InWindow(g, k) ensures CopiedAll(g, fb, img, rs)[k] == fb[k] {
      CopiedAllIsUnion(g, fb, img, rs, k);
    }
  }

  /** While nobody else draws, no run changes a byte outside the window, whatever its commands
      and its state. */
  lemma {:induction false} RunKeepsMargins(su: Setup, s: State, cmds: seq<Cmd>)
    requires WellFormed(su, s) && forall i :: 0 <= i < |cmds| ==> !cmds[i].Console?
    ensures SameMargins(su.g, s.fb, Run(su, s, cmds).fb)
    decreases |cmds|
  {
    hide WellFormed, Step, InWindow;
    if cmds != [] {
      var n := |cmds| - 1;
      RunKeepsMargins(su, s, cmds[..n]);
      StepKeepsMargins(su, Run(su, s, cmds[..n]), cmds[n]);
    }
  }

  // -------------------------------------------------- where incremental paints fail

  const Dot := Rect(0, 0, 0, 0)
  const Red := Color(255, 0, 0, 255)

  /** A one-pixel red icon that is cropped and shown once the service "net" has started. */
  function RedIcon(visible: bool, invalid: bool): Obj {
    var img: Img := Image(1, 1, [[Red]]);
    var box := Box(Dot, Red, Red, Red, Red, Attr(false, false, false, false, false));
    Obj(Spec(CropIcon(0, 0, img, Some(Trigger("net", Started)), Dot, Dot), true, false, 0, 0),
        Dot, box, Dot, invalid, visible, 255, 0, 0, 0)
  }

  function OnePixel(): Setup {
    Setup(Geometry(1, 1, 0, 0, 4, 4, Layout(4, 2, 1, 0)), [[Pixel(0, 0, 0, 0)]])
  }

  function RedState(visible: bool, invalid: bool, fb: seq<byte>): State {
    State([RedIcon(visible, invalid)], [], [[Pixel(0, 0, 0, 0)]], fb, 0, true)
  }

  lemma RedWellFormed(visible: bool, invalid: bool, fb: seq<byte>)
    requires |fb| == 4
    ensures WellFormed(OnePixel(), RedState(visible, invalid, fb))
    ensures OnePixel().Valid()
  {
    var su := OnePixel();
    assert su.g.Valid();
  }

  lemma RedMarks(visible: bool, invalid: bool, force: bool)
    requires !visible || !force
    ensures Mark(RedIcon(visible, invalid), 0, force, false) == (RedIcon(visible, false), [])
  {
    InterpolateStaysInBound(Dot, Dot, 0);
  }

  lemma RedRender(visible: bool, invalid: bool, force: bool, fb: seq<byte>)
    requires |fb| == 4 && (!visible || !force)
    ensures OnePixel().Valid()
    ensures RenderObjs(OnePixel(), RedState(visible, invalid, fb), force, []) == RedState(visible, false, fb)
  {
    hide Mark;
    RedWellFormed(visible, invalid, fb);
    RedMarks(visible, invalid, force);
    var su, s := OnePixel(), RedState(visible, invalid, fb);
    var out := MarkAll(s.objs, 0, force, []);
    assert out == [RedIcon(visible, false)];
    var none: seq<Rect> := [];
    assert MarkDamage(su.g, s.objs, 0, force, [], 0) == none;
    assert SanitizeAll(su.g.xres, su.g.yres, none) == none;
    assert MarkDamage(su.g, s.objs, 0, force, [], 1) == none + none;
    assert s.damage + MarkDamage(su.g, s.objs, 0, force, [], 1) == none;
  }

  lemma RedRepaint(fb: seq<byte>)
    requires |fb| == 4
    ensures OnePixel().Valid()
    ensures var s1 := FullRepaint(OnePixel(), RedState(false, true, fb));
            s1 == RedState(false, false, s1.fb) && |s1.fb| == 4
  {
    hide RenderObjs, Copied;
    var su, s := OnePixel(), RedState(false, true, fb);
    RedRender(false, true, true, fb);
    assert InvalidateAll(s.objs) == s.objs && s.(buf := su.bg, objs := InvalidateAll(s.objs)) == s;
  }

  lemma RedReveal(fb: seq<byte>)
    requires |fb| == 4
    ensures WellFormed(OnePixel(), RedState(false, false, fb))
    ensures Step(OnePixel(), RedState(false, false, fb), Service("net", Started)) == RedState(true, true, fb)
  {
    RedWellFormed(false, false, fb);
    var su, s, c := OnePixel(), RedState(false, false, fb), Service("net", Started);
    assert Toggled(c, RedIcon(false, false)) == (RedIcon(true, true), false, false);
    assert ToggleAll(c, s.objs) == [RedIcon(true, true)];
    assert ToggleDamage(su.g, c, s.objs, 0) == [] && ToggleDamage(su.g, c, s.objs, 1) == [];
  }

  lemma RunOfThree(su: Setup, s: State, c1: Cmd, c2: Cmd, c3: Cmd)
    requires WellFormed(su, s)
    ensures var s1 := Step(su, s, c1);
            && WellFormed(su, s1)
            && WellFormed(su, Step(su, s1, c2))
            && Run(su, s, [c1, c2, c3]) == Step(su, Step(su, s1, c2), c3)
  {
    hide Step, AllFit, AllInside;
    var cmds := [c1, c2, c3];
    assert cmds[..2] == [c1, c2] && [c1, c2][..1] == [c1] && [c1][..0] == [];
    assert Run(su, s, []) == s;
    assert Run(su, s, [c1]) == Step(su, s, c1);
    assert Run(su, s, [c1, c2]) == Step(su, Step(su, s, c1), c2);
  }

  /** A cropped icon that its service makes visible without a progress change is not drawn by the
      next incremental paint: three commands lead from a repaint to a wrong picture. */
  lemma RevealCanBeMissed()
    ensures var su, s := OnePixel(), RedState(false, true, [0, 0, 0, 0]);
            && WellFormed(su, s)
            && !Exact(su, Run(su, s, [Repaint, Service("net", Started), Paint([])]))
  {
    hide RenderObjs, Copied, CopiedAll, FullRepaint, ToggleAll, ToggleDamage, Inv, Reference, Run;
    var su, fb: seq<byte> := OnePixel(), [0, 0, 0, 0];
    var s := RedState(false, true, fb);
    RedWellFormed(false, true, fb);
    RunOfThree(su, s, Repaint, Service("net", Started), Paint([]));
    // The repaint draws nothing, the service makes the icon visible, the paint finds the crop
    // rectangle unchanged and redraws nothing.
    RedRepaint(fb);
    var s1 := Step(su, s, Repaint);
    RedReveal(s1.fb);
    RedRender(true, true, false, s1.fb);
    var s3 := Run(su, s, [Repaint, Service("net", Started), Paint([])]);
    assert s3.objs == [RedIcon(true, false)] && s3.buf == [[Pixel(0, 0, 0, 0)]] && s3.progress == 0;
    RedReference();
    assert OnScreen(su.g.xres, su.g.yres, 0, 0);
    assert s3.buf[0][0] != Reference(s3.objs, 0, 0, 0, su.bg[0][0]);
  }

  lemma RedReference()
    ensures Reference([RedIcon(true, false)], 0, 0, 0, Pixel(0, 0, 0, 0)) == Pixel(255, 0, 0, 0)
  {
    hide Blend;
    InterpolateStaysInBound(Dot, Dot, 0);
    var objs, px := [RedIcon(true, false)], Pixel(0, 0, 0, 0);
    assert objs[..0] == [];
    assert Reference(objs[..0], 0, 0, 0, px) == px;
    assert InkAt(objs[0].spec.shape, 255, 0, 0, 0, px) == Pixel(255, 0, 0, 0);
  }
}
