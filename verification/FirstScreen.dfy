/**
  The first picture of a theme: what a repaint shows right after loading, from the configuration
  alone (core/src/libfbsplashrender.c, fbsplashr_theme_load and fbsplashr_render_screen).
 */
module FirstScreen {
  import opened Rects
  import opened Pixels
  import opened Boxes
  import opened Objects
  import opened Lists
  import opened Nodes
  import opened Blit
  import opened Fades
  import opened Framebuffer
  import opened Scene
  import opened Runs
  import opened Reveals
  import opened Theme

  /** The back buffer is the first picture of the configured objects, and the window shows it. */
  ghost predicate ShowsFirst(su: Setup, specs: seq<Spec>, s: State)
    requires WellFormed(su, s)
  {
    && (forall x, y {:trigger s.buf[y][x]} :: OnScreen(su.g.xres, su.g.yres, x, y) ==>
          s.buf[y][x] == FirstPicture(specs, s.progress, x, y, su.bg[y][x]))
    && Shows(su.g, s.fb, s.buf)
  }

  /** A repaint of a theme just loaded shows what its configuration says: every box, and every icon
      that belongs to no service and is not to fade in, at full opacity and in the order of the
      list, over the background. */
  lemma FirstRepaint(su: Setup, specs: seq<Spec>, s: State)
    requires WellFormed(su, s) && s.silent && s.objs == AllLoaded(su.g.xres, su.g.yres, specs, s.progress)
    ensures WellFormed(su, FullRepaint(su, s)) && FullRepaint(su, s).progress == s.progress
    ensures ShowsFirst(su, specs, FullRepaint(su, s))
  {
    hide Fits, Inside, FullRepaint, Shows, Reference, FirstPicture, Loaded;
    var s' := FullRepaint(su, s);
    RepaintIsExact(su, s);
    RepaintFrame(su, s);
    RepaintKeepsFades(su, s);
    forall x, y | OnScreen(su.g.xres, su.g.yres, x, y)
      ensures s'.buf[y][x] == FirstPicture(specs, s.progress, x, y, su.bg[y][x])
    {
      ReferenceBySpec(s'.objs, s.objs, s.progress, x, y, su.bg[y][x]);
      LoadedPicture(su.g.xres, su.g.yres, specs, s.objs, s.progress, x, y, su.bg[y][x]);
    }
  }

  /** Loading a theme and repainting the screen. */
  method LoadAndShow(su: Setup, specs: seq<Spec>, fb: array<byte>, progress: int) returns (t: Theme)
    requires su.Valid() && fb.Length == su.g.fbLength && InRange(progress)
    requires forall i :: 0 <= i < |specs| ==> Loadable(su.g.xres, su.g.yres, specs[i].shape)
    modifies fb
    ensures t.Valid() && fresh(t) && t.su == su && t.fb == fb && t.progress == progress
    ensures WellFormed(su, t.View()) && ShowsFirst(su, specs, t.View())
  {
    hide t.Valid, FullRepaint, AllInside, AllFit, ShowsFirst, Loaded, Loadable, Starters;
    t := new Theme.Load(su, specs, fb, progress, true);
    ghost var s := t.View();
    LoadedState(t, specs);
    FirstRepaint(su, specs, s);
    t.CmdRepaint();
  }

  lemma LoadedState(t: Theme, specs: seq<Spec>)
    requires t.Valid() && t.vals == AllLoaded(t.su.g.xres, t.su.g.yres, specs, t.progress)
    ensures WellFormed(t.su, t.View()) && t.View().objs == AllLoaded(t.su.g.xres, t.su.g.yres, specs, t.View().progress)
    ensures t.View().silent == t.silent
  {
  }
}
