/**
  The fade and the compositor together: a repaint with the fade-in effect in the middle of a run
  (core/src/libfbsplashrender.c, fbsplashr_render_screen; core/src/daemon_cmd.c, cmd_repaint and
  cmd_set_effects), for byte-aligned 8-bit components.

  A fade writes the colour bytes of the back buffer into the window and zero everywhere else,
  where a plain repaint also writes the padding bytes and leaves the margins alone.
 */
module FadedRuns {
  import opened Rects
  import opened Pixels
  import opened Objects
  import opened Framebuffer
  import opened Scene
  import opened Runs
  import opened Lists
  import opened Nodes
  import opened Theme
  import FadeColor
  import FadeRun

  // -------------------------------------------------------- two views of one framebuffer

  function FormatOf(f: Layout): FadeColor.Format {
    FadeColor.Format(f.bpp, FadeColor.Channel(8 * f.ro, 8), FadeColor.Channel(8 * f.go, 8), FadeColor.Channel(8 * f.bo, 8))
  }

  function WindowOf(g: Geometry, lines: nat): FadeRun.Window {
    FadeRun.Window(g.xres, g.yres, g.xmarg, g.ymarg, g.lineLength, lines, FormatOf(g.f))
  }

  /** The framebuffer is a whole number of lines. */
  predicate WholeLines(g: Geometry, lines: nat) {
    g.Valid() && g.fbLength == lines * g.lineLength
  }

  lemma FormatFits(f: Layout)
    requires f.Valid()
    ensures FormatOf(f).Valid() && FormatOf(f).FullDepth()
  {
  }

  lemma WindowFits(g: Geometry, lines: nat)
    requires WholeLines(g, lines)
    ensures WindowOf(g, lines).Valid() && WindowOf(g, lines).f.FullDepth() && WindowOf(g, lines).Size() == g.fbLength
  {
    FormatFits(g.f);
    MulMonotone(1, g.xmarg + g.xres, g.f.bpp);
    if lines < g.ymarg + g.yres {
      FadeRun.LineBelow(lines, g.ymarg + g.yres, g.lineLength);
      assert false;
    }
  }

  lemma Divided(k: nat, n: nat, m: nat)
    requires k < n * m
    ensures m > 0 && k / m < n
  {
    MulMonotone(0, n, m);
    assert m > 0;
    if k / m >= n {
      MulMonotone(n, k / m, m);
      DivMod(k, m);
      assert false;
    }
  }

  /** The part of size m, out of n, that has position k. */
  function PartOf(k: nat, n: nat, m: nat): (q: nat)
    requires k < n * m
    ensures q < n && m > 0
  {
    Divided(k, n, m);
    k / m
  }

  function OffsetIn(k: nat, m: nat): (r: nat)
    requires m > 0
    ensures r < m
  {
    k % m
  }

  /** Row, column and byte within the pixel of a byte of a back buffer. */
  function Place(g: Geometry, k: nat): (s: Spot)
    requires k < g.xres * g.yres * g.f.bpp
    ensures 0 <= s.y < g.yres && 0 <= s.x < g.xres && s.c < g.f.bpp
  {
    hide PartOf, OffsetIn;
    var i := PartOf(k, g.xres * g.yres, g.f.bpp);
    var y := PartOf(i, g.yres, g.xres);
    Spot(OffsetIn(i, g.xres), y, OffsetIn(k, g.f.bpp))
  }

  function BufferByte(g: Geometry, img: Bitmap, k: nat): byte
    requires g.Valid() && g.IsBitmap(img) && k < g.xres * g.yres * g.f.bpp
  {
    var s := Place(g, k);
    EncodedByte(g.f, img[s.y][s.x], s.c)
  }

  /** The bytes of a back buffer, row by row. */
  function Bytes(g: Geometry, img: Bitmap): (s: seq<byte>)
    requires g.Valid() && g.IsBitmap(img)
    ensures |s| == g.xres * g.yres * g.f.bpp
    ensures forall k :: 0 <= k < |s| ==> s[k] == BufferByte(g, img, k)
  {
    MulMonotone(0, g.xres * g.yres, g.f.bpp);
    seq<byte>(g.xres * g.yres * g.f.bpp, (k: nat) requires k < g.xres * g.yres * g.f.bpp => BufferByte(g, img, k))
  }

  lemma PixelSlice(w: FadeRun.Window, src: seq<byte>, i: nat, c: nat)
    requires w.IsPicture(src) && i < w.xres * w.yres && c < w.f.bpp
    ensures 0 <= i * w.f.bpp + c < |src| && FadeRun.PixelOf(w, src, i)[c] == src[i * w.f.bpp + c]
  {
    FadeRun.LineBelow(i, w.xres * w.yres, w.f.bpp);
    MulMonotone(0, i, w.f.bpp);
  }

  /** The pixel of the fade is the pixel of the back buffer. */
  lemma SamePixel(g: Geometry, lines: nat, img: Bitmap, x: nat, y: nat)
    requires WholeLines(g, lines) && g.IsBitmap(img) && x < g.xres && y < g.yres
    ensures var w := WindowOf(g, lines);
            FadeRun.PixelOf(w, Bytes(g, img), FadeRun.IndexOf(w, x, y)) == Encode(g.f, img[y][x])
  {
    hide BufferByte, FadeRun.PixelOf;
    var w, src := WindowOf(g, lines), Bytes(g, img);
    var i := FadeRun.IndexOf(w, x, y);
    var s := FadeRun.PixelOf(w, src, i);
    forall c | 0 <= c < g.f.bpp ensures s[c] == Encode(g.f, img[y][x])[c] {
      PixelSlice(w, src, i, c);
      ByteOfPixel(g, img, x, y, c);
    }
  }

  lemma ByteOfPixel(g: Geometry, img: Bitmap, x: nat, y: nat, c: nat)
    requires g.Valid() && g.IsBitmap(img) && x < g.xres && y < g.yres && c < g.f.bpp
    ensures 0 <= (y * g.xres + x) * g.f.bpp + c < g.xres * g.yres * g.f.bpp
    ensures Bytes(g, img)[(y * g.xres + x) * g.f.bpp + c] == EncodedByte(g.f, img[y][x], c)
  {
    MulMonotone(0, y, g.xres);
    MulMonotone(0, y * g.xres + x, g.f.bpp);
    FadeRun.LineBelow(y, g.yres, g.xres);
    FadeRun.LineBelow(y * g.xres + x, g.xres * g.yres, g.f.bpp);
    DivModOf(y * g.xres + x, c, g.f.bpp);
    DivModOf(y, x, g.xres);
  }

  predicate IsColour(f: Layout, c: nat) {
    c == f.ro || c == f.go || c == f.bo
  }

  /** Keeping the colour bits of a pixel keeps its colour bytes and clears the padding. */
  lemma ColourBytes(f: Layout, s: seq<byte>, c: nat)
    requires f.Valid() && |s| == f.bpp && c < f.bpp
    ensures FadeColor.Save(FadeColor.ColourOnly(FormatOf(f), FadeColor.Load(s)))[c] == if IsColour(f, c) then s[c] else 0
  {
    hide FadeColor.Bit, FadeColor.Number;
    var w := FadeColor.ColourOnly(FormatOf(f), FadeColor.Load(s));
    var part := w[8 * c..8 * c + 8];
    forall i | 0 <= i < 8 ensures part[i] == (FadeColor.Bit(s[c], i) && IsColour(f, c)) {
      InColourByte(f, c, i);
    }
    if IsColour(f, c) {
      FadeColor.ByteSize();
      FadeColor.NumberOfBits(s[c], 8);
      assert part == FadeColor.BitsOf(s[c], 8);
    } else {
      FadeColor.NumberOfNone(part);
    }
  }

  lemma InColourByte(f: Layout, c: nat, i: nat)
    requires i < 8
    ensures FormatOf(f).InColour(8 * c + i) <==> IsColour(f, c)
    ensures (8 * c + i) / 8 == c && (8 * c + i) % 8 == i
  {
  }

  // ---------------------------------------------------------------- what a fade-in leaves

  /** The framebuffer after a whole fade-in of a back buffer. */
  function FadedIn(g: Geometry, lines: nat, fb: seq<byte>, img: Bitmap): (out: seq<byte>)
    requires WholeLines(g, lines) && g.IsBitmap(img) && |fb| == g.fbLength
    ensures |out| == |fb|
  {
    WindowFits(g, lines);
    var w := WindowOf(g, lines);
    FadeRun.Faded(w, FadeRun.Base(w, fb, false), Bytes(g, img), false, FadeColor.STEPS)
  }

  /** Every byte after a fade-in: the colour bytes of the picture in the window, zero elsewhere. */
  lemma FadedInByte(g: Geometry, lines: nat, fb: seq<byte>, img: Bitmap, k: nat)
    requires WholeLines(g, lines) && g.IsBitmap(img) && |fb| == g.fbLength && k < |fb|
    ensures FadedIn(g, lines, fb, img)[k]
            == if InWindow(g, k) && IsColour(g.f, Where(g, k).c) then PictureByte(g, img, k) else 0
  {
    hide FadeRun.Faded, FadeRun.Base, Where, EncodedByte, Bytes, FormatOf, IsColour, FadeRun.InWindow;
    WindowFits(g, lines);
    if InWindow(g, k) {
      FadedInside(g, lines, fb, img, k);
    } else {
      OutsideBoth(g, lines, k);
      FadedInIs(g, lines, fb, img);
      FadeRun.FadeInShows(WindowOf(g, lines), fb, Bytes(g, img));
    }
  }

  lemma RowInWindow(g: Geometry, lines: nat, y: nat, i: nat)
    requires WholeLines(g, lines) && y < g.yres && i < g.xres * g.f.bpp
    ensures Address(g, 0, y) + i >= 0 && InWindow(g, Address(g, 0, y) + i)
  {
    hide Where, Address;
    RunStaysInLine(g, 0, g.xres, i);
    WhereInRow(g, 0, y, i);
    IndexInRun(g.xres, g.f.bpp, i);
  }

  /** A byte outside the window of the compositor is outside the window of the fade. */
  lemma OutsideBoth(g: Geometry, lines: nat, k: nat)
    requires WholeLines(g, lines) && !InWindow(g, k)
    ensures !FadeRun.InWindow(WindowOf(g, lines), k)
  {
    hide Where;
    var w := WindowOf(g, lines);
    forall y: nat | y < w.yres ensures !FadeRun.InRow(w, y, k) {
      assert w.RowAt(y) == Address(g, 0, y) && w.RowLength() == g.xres * g.f.bpp;
      if w.RowAt(y) <= k < w.RowAt(y) + w.RowLength() {
        RowInWindow(g, lines, y, k - w.RowAt(y));
      }
    }
  }

  lemma FadedInside(g: Geometry, lines: nat, fb: seq<byte>, img: Bitmap, k: nat)
    requires WholeLines(g, lines) && g.IsBitmap(img) && |fb| == g.fbLength && k < |fb| && InWindow(g, k)
    ensures FadedIn(g, lines, fb, img)[k] == if IsColour(g.f, Where(g, k).c) then PictureByte(g, img, k) else 0
  {
    hide *;
    WindowFits(g, lines);
    WindowParts(g, lines, k);
    var w, s, src := WindowOf(g, lines), Where(g, k), Bytes(g, img);
    var b := FadeRun.Base(w, fb, false);
    PictureIs(g, img, k);
    ByteShown(w, FadedIn(g, lines, fb, img), s.x, s.y, s.c, k);
    FadedInIs(g, lines, fb, img);
    FadeRun.FadedPixel(w, b, src, s.x, s.y);
    SamePixel(g, lines, img, s.x, s.y);
    ColourBytes(g.f, Encode(g.f, img[s.y][s.x]), s.c);
  }

  lemma FadedInIs(g: Geometry, lines: nat, fb: seq<byte>, img: Bitmap)
    requires WholeLines(g, lines) && g.IsBitmap(img) && |fb| == g.fbLength
    ensures var w := WindowOf(g, lines);
            && w.Valid() && |fb| == w.Size() && w.IsPicture(Bytes(g, img))
            && FadedIn(g, lines, fb, img) == FadeRun.Faded(w, FadeRun.Base(w, fb, false), Bytes(g, img), false, FadeColor.STEPS)
  {
    WindowFits(g, lines);
  }

  lemma PictureIs(g: Geometry, img: Bitmap, k: nat)
    requires g.Valid() && g.IsBitmap(img) && InWindow(g, k)
    ensures var s := Where(g, k);
            && 0 <= s.x < g.xres && 0 <= s.y < g.yres && s.c < g.f.bpp
            && |img| == g.yres && |img[s.y]| == g.xres
            && PictureByte(g, img, k) == Encode(g.f, img[s.y][s.x])[s.c]
  {
  }

  /** The place of a byte of the window, in the terms of the fade. */
  lemma WindowParts(g: Geometry, lines: nat, k: nat)
    requires WholeLines(g, lines) && InWindow(g, k)
    ensures var w, s := WindowOf(g, lines), Where(g, k);
            && 0 <= s.x < w.xres && 0 <= s.y < w.yres && s.c < w.f.bpp && w.f == FormatOf(g.f) && w.f.bpp == g.f.bpp
            && g.f.Valid() && g.Valid()
            && k == w.RowAt(s.y) + s.x * w.f.bpp + s.c
  {
    hide Where;
    var s := Where(g, k);
    RowIsContiguous(g, k, 0, s.y);
  }

  lemma ByteShown(w: FadeRun.Window, fb: seq<byte>, x: nat, y: nat, c: nat, k: nat)
    requires w.Valid() && |fb| == w.Size() && x < w.xres && y < w.yres && c < w.f.bpp
    requires k == w.RowAt(y) + x * w.f.bpp + c && k < |fb|
    ensures fb[k] == FadeRun.Shown(w, fb, x, y)[c]
  {
    FadeRun.ColumnFits(w, x, w.xres);
    FadeRun.RowFits(w, y);
    hide w.RowAt;
    MulMonotone(0, x, w.f.bpp);
  }

  /** The byte of a pixel that holds no component, in a pixel of four bytes. */
  function PadIndex(f: Layout): (c: int)
    requires f.Valid()
    ensures f.bpp == 4 ==> 0 <= c < 4 && !IsColour(f, c) && forall j :: 0 <= j < 4 && !IsColour(f, j) ==> j == c
    ensures f.bpp == 3 ==> forall j :: 0 <= j < 3 ==> IsColour(f, j)
  {
    6 - f.ro - f.go - f.bo
  }

  /** A fade-in ends with exactly what a plain copy shows if and only if the picture has no
      padding bytes, or they are all zero. */
  lemma FadedInShowsIff(g: Geometry, lines: nat, fb: seq<byte>, img: Bitmap)
    requires WholeLines(g, lines) && g.IsBitmap(img) && |fb| == g.fbLength
    ensures Shows(g, FadedIn(g, lines, fb, img), img) <==>
            g.f.bpp == 3 || forall y, x {:trigger img[y][x]} :: 0 <= y < g.yres && 0 <= x < g.xres ==> img[y][x].pad == 0
  {
    hide FadedIn, Where, IsColour;
    var out, c := FadedIn(g, lines, fb, img), PadIndex(g.f);
    if Shows(g, out, img) && g.f.bpp == 4 {
      forall y, x {:trigger img[y][x]} | 0 <= y < g.yres && 0 <= x < g.xres ensures img[y][x].pad == 0 {
        PadSeen(g, lines, fb, img, x, y, c);
      }
    }
    if g.f.bpp == 3 || forall y, x {:trigger img[y][x]} :: 0 <= y < g.yres && 0 <= x < g.xres ==> img[y][x].pad == 0 {
      forall k | 0 <= k < |out| && InWindow(g, k) ensures out[k] == PictureByte(g, img, k) {
        FadedInByte(g, lines, fb, img, k);
        PadOrColour(g.f, img[Where(g, k).y][Where(g, k).x], Where(g, k).c);
      }
    }
  }

  lemma PadOrColour(f: Layout, p: Pixel, c: nat)
    ensures !IsColour(f, c) ==> EncodedByte(f, p, c) == p.pad
  {
  }

  lemma PadSeen(g: Geometry, lines: nat, fb: seq<byte>, img: Bitmap, x: nat, y: nat, c: nat)
    requires WholeLines(g, lines) && g.IsBitmap(img) && |fb| == g.fbLength && x < g.xres && y < g.yres
    requires c < g.f.bpp && !IsColour(g.f, c) && Shows(g, FadedIn(g, lines, fb, img), img)
    ensures img[y][x].pad == 0
  {
    hide FadedIn, Where, IsColour, Address;
    RowFits(g, x, 1, y);
    var k := Address(g, x, y) + c;
    RunStaysInLine(g, x, 1, c);
    WhereInRow(g, x, y, c);
    OffsetOfByte(c, g.f.bpp);
    FadedInByte(g, lines, fb, img, k);
    PadOrColour(g.f, img[y][x], c);
  }

  // ------------------------------------------------------------------- runs with effects

  /** The scene, and whether the next repaint is to fade in (config.effects). */
  datatype Display = Display(s: State, fadeIn: bool)

  datatype Event = Do(c: Cmd) | SetEffects(fadeIn: bool)

  ghost predicate Ready(su: Setup, lines: nat, s: State) {
    WellFormed(su, s) && WholeLines(su.g, lines)
  }

  /** fbsplashr_render_screen with repaint and the fade-in effect set. */
  function FadedRepaint(su: Setup, lines: nat, s: State): State
    requires Ready(su, lines, s)
  {
    var s1 := Rebuilt(su, s);
    s1.(fb := FadedIn(su.g, lines, s.fb, s1.buf))
  }

  /** The fade-in effect is used once. */
  function Handled(su: Setup, lines: nat, d: Display, e: Event): Display
    requires Ready(su, lines, d.s)
  {
    match e
    case SetEffects(b) => d.(fadeIn := b)
    case Do(c) =>
      if c.Repaint? && d.s.silent && d.fadeIn then Display(FadedRepaint(su, lines, d.s), false)
      else d.(s := Step(su, d.s, c))
  }

  lemma HandledReady(su: Setup, lines: nat, d: Display, e: Event)
    requires Ready(su, lines, d.s)
    ensures Ready(su, lines, Handled(su, lines, d, e).s)
  {
    hide Step, Rebuilt, FadedIn, AllInside, AllFit;
    match e
    case SetEffects(_) =>
    case Do(c) =>
      StepStaysWellFormed(su, d.s, c);
      RebuiltWellFormed(su, d.s);
  }

  lemma RebuiltWellFormed(su: Setup, s: State)
    requires WellFormed(su, s)
    ensures WellFormed(su, Rebuilt(su, s)) && Rebuilt(su, s).fb == s.fb
  {
    hide RenderObjs, AllInside, AllFit;
    RepaintStart(su, s);
    var s0 := s.(buf := su.bg, objs := InvalidateAll(s.objs));
    RenderWellFormed(su, s0, true, []);
    RenderKeepsFb(su, s0, true, []);
  }

  function Displayed(su: Setup, lines: nat, d: Display, es: seq<Event>): (out: Display)
    requires Ready(su, lines, d.s)
    ensures Ready(su, lines, out.s)
    decreases |es|
  {
    if es == [] then d
    else
      var before := Displayed(su, lines, d, es[..|es| - 1]);
      HandledReady(su, lines, before, es[|es| - 1]);
      Handled(su, lines, before, es[|es| - 1])
  }

  /** Whether the fade-in has been asked for and not been used since: a repaint in front uses it. */
  function Pending(su: Setup, lines: nat, d: Display, es: seq<Event>): bool
    requires Ready(su, lines, d.s)
    decreases |es|
  {
    if es == [] then d.fadeIn
    else
      match es[|es| - 1]
      case SetEffects(b) => b
      case Do(c) => Pending(su, lines, d, es[..|es| - 1]) && !(c.Repaint? && Displayed(su, lines, d, es[..|es| - 1]).s.silent)
  }

  /** The first repaint in front after the effect has been set fades in, and no other does: it goes
      like the plain one except for the framebuffer. */
  lemma {:induction false} FadesOnce(su: Setup, lines: nat, d: Display, es: seq<Event>)
    requires Ready(su, lines, d.s)
    ensures Displayed(su, lines, d, es).fadeIn == Pending(su, lines, d, es)
    ensures var b := Displayed(su, lines, d, es);
            b.s.silent ==>
              Displayed(su, lines, d, es + [Do(Repaint)]).s == if Pending(su, lines, d, es) then FadedRepaint(su, lines, b.s) else FullRepaint(su, b.s)
    decreases |es|
  {
    hide FadedRepaint, FullRepaint, WellFormed;
    assert (es + [Do(Repaint)])[..|es|] == es;
    if es != [] {
      FadesOnce(su, lines, d, es[..|es| - 1]);
    }
  }

  /** The commands among the events of a run. */
  function CommandsIn(es: seq<Event>): seq<Cmd> {
    if es == [] then []
    else
      var e := es[|es| - 1];
      CommandsIn(es[..|es| - 1]) + if e.Do? then [e.c] else []
  }

  /** Two framebuffers agree on the colour bytes of the window. */
  ghost predicate SameColours(g: Geometry, u: seq<byte>, v: seq<byte>)
    requires g.Valid()
  {
    |u| == |v| && forall k :: 0 <= k < |u| && InWindow(g, k) && IsColour(g.f, Where(g, k).c) ==> u[k] == v[k]
  }

  /** Two states differ only in bytes of the framebuffer that hold no colour of the window. */
  ghost predicate Alike(g: Geometry, a: State, b: State)
    requires g.Valid()
  {
    a.(fb := b.fb) == b && SameColours(g, a.fb, b.fb)
  }

  lemma CopiedAlike(g: Geometry, u: seq<byte>, v: seq<byte>, img: Bitmap, r: Rect)
    requires g.Valid() && g.IsBitmap(img) && SameColours(g, u, v)
    ensures SameColours(g, Copied(g, u, img, r), Copied(g, v, img, r))
  {
    hide Where, PictureByte, Has, IsColour;
  }

  lemma CopiedAllAlike(g: Geometry, u: seq<byte>, v: seq<byte>, img: Bitmap, rs: seq<Rect>)
    requires g.Valid() && g.IsBitmap(img) && SameColours(g, u, v)
    ensures SameColours(g, CopiedAll(g, u, img, rs), CopiedAll(g, v, img, rs))
  {
    hide Where, PictureByte, Covered, IsColour, CopiedAll;
    forall k | 0 <= k < |u| && InWindow(g, k) && IsColour(g.f, Where(g, k).c)
      ensures CopiedAll(g, u, img, rs)[k] == CopiedAll(g, v, img, rs)[k]
    {
      CopiedAllIsUnion(g, u, img, rs, k);
      CopiedAllIsUnion(g, v, img, rs, k);
    }
  }

  /** A fade-in and a plain copy of the whole window agree on the colours. */
  lemma FadedAlike(g: Geometry, lines: nat, u: seq<byte>, v: seq<byte>, img: Bitmap)
    requires WholeLines(g, lines) && g.IsBitmap(img) && |u| == |v| == g.fbLength
    ensures SameColours(g, FadedIn(g, lines, u, img), Copied(g, v, img, WholeWindow(g)))
  {
    hide Where, PictureByte, IsColour, FadedIn, Copied;
    forall k | 0 <= k < |u| && InWindow(g, k) && IsColour(g.f, Where(g, k).c)
      ensures FadedIn(g, lines, u, img)[k] == Copied(g, v, img, WholeWindow(g))[k]
    {
      FadedInByte(g, lines, u, img, k);
      FullCopyShows(g, v, img);
    }
  }

  lemma PaintAlike(su: Setup, a: State, b: State, pads: seq<bool>)
    requires WellFormed(su, a) && WellFormed(su, b) && Alike(su.g, a, b)
    ensures Alike(su.g, PartialPaint(su, a, pads), PartialPaint(su, b, pads))
  {
    hide RenderObjs, CopiedAll, SameColours, AllInside, AllFit;
    RenderKeepsFb(su, a, false, pads);
    RenderKeepsFb(su, b, false, pads);
    assert b == a.(fb := b.fb);
    var s1 := RenderObjs(su, a, false, pads);
    RenderWellFormed(su, a, false, pads);
    CopiedAllAlike(su.g, a.fb, b.fb, s1.buf, s1.damage);
  }

  lemma RebuiltAlike(su: Setup, a: State, b: State)
    requires WellFormed(su, a) && WellFormed(su, b) && a.(fb := b.fb) == b
    ensures Rebuilt(su, a).(fb := b.fb) == Rebuilt(su, b) && Rebuilt(su, a).fb == a.fb && Rebuilt(su, b).fb == b.fb
    ensures su.g.IsBitmap(Rebuilt(su, a).buf)
  {
    hide RenderObjs, AllInside, AllFit;
    RebuiltWellFormed(su, a);
    RebuiltWellFormed(su, b);
    var s0 := a.(buf := su.bg, objs := InvalidateAll(a.objs));
    RenderKeepsFb(su, s0, true, []);
    assert b.(buf := su.bg, objs := InvalidateAll(b.objs)) == s0.(fb := b.fb);
  }

  lemma RepaintAlike(su: Setup, a: State, b: State)
    requires WellFormed(su, a) && WellFormed(su, b) && Alike(su.g, a, b)
    ensures Alike(su.g, FullRepaint(su, a), FullRepaint(su, b))
  {
    hide Rebuilt, Copied, SameColours, AllInside, AllFit;
    RebuiltAlike(su, a, b);
    CopiedAlike(su.g, a.fb, b.fb, Rebuilt(su, a).buf, WholeWindow(su.g));
  }

  lemma FadedRepaintAlike(su: Setup, lines: nat, a: State, b: State)
    requires Ready(su, lines, a) && WellFormed(su, b) && Alike(su.g, a, b)
    ensures Alike(su.g, FadedRepaint(su, lines, a), FullRepaint(su, b))
  {
    hide Rebuilt, Copied, FadedIn, AllInside, AllFit, Where;
    RebuiltAlike(su, a, b);
    FadedAlike(su.g, lines, a.fb, b.fb, Rebuilt(su, a).buf);
  }

  /** Commands cannot tell two such states apart. */
  lemma StepAlike(su: Setup, a: State, b: State, c: Cmd)
    requires WellFormed(su, a) && WellFormed(su, b) && Alike(su.g, a, b)
    ensures Alike(su.g, Step(su, a, c), Step(su, b, c))
  {
    hide PartialPaint, FullRepaint, Copied, SameColours, AllInside, AllFit, ToggleAll, ToggleDamage, FaintAll, TouchAll;
    assert |a.fb| == |b.fb|;
    match c
    case Paint(pads) => PaintAlike(su, a, b, pads);
    case Repaint => RepaintAlike(su, a, b);
    case PaintArea(x0, y0, x1, y1) => CopiedAlike(su.g, a.fb, b.fb, a.buf, OrderedArea(su.g, x0, y0, x1, y1));
    case Tick(fades) =>
      FaintWellFormed(su, a, fades);
      FaintWellFormed(su, b, fades);
      RepaintAlike(su, a.(objs := FaintAll(a.objs, fades)), b.(objs := FaintAll(b.objs, fades)));
    case Console(bytes) => SameIsAlike(su.g, bytes);
    case _ =>
  }

  lemma SameIsAlike(g: Geometry, u: seq<byte>)
    requires g.Valid()
    ensures SameColours(g, u, u)
  {
    hide Where;
  }

  /** A run with fade-ins anywhere goes like the run of the same commands without them, up to
      bytes that hold no colour of the window. */
  lemma {:induction false} FadedRunAlike(su: Setup, lines: nat, d: Display, es: seq<Event>)
    requires Ready(su, lines, d.s)
    ensures Alike(su.g, Displayed(su, lines, d, es).s, Run(su, d.s, CommandsIn(es)))
    decreases |es|
  {
    hide Step, FadedRepaint, FullRepaint, Alike, WellFormed;
    if es == [] {
      SameIsAlike(su.g, d.s.fb);
      AlikeItself(su.g, d.s);
    } else {
      var n := |es| - 1;
      FadedRunAlike(su, lines, d, es[..n]);
      var before, cmds := Displayed(su, lines, d, es[..n]), CommandsIn(es[..n]);
      if es[n].Do? {
        RunAppend(su, d.s, cmds, es[n].c);
        HandledAlike(su, lines, before, Run(su, d.s, cmds), es[n].c);
      } else {
        assert CommandsIn(es) == cmds;
      }
    }
  }

  lemma AlikeItself(g: Geometry, s: State)
    requires g.Valid()
    ensures Alike(g, s, s)
  {
    hide SameColours;
    SameIsAlike(g, s.fb);
  }

  lemma HandledAlike(su: Setup, lines: nat, d: Display, b: State, c: Cmd)
    requires Ready(su, lines, d.s) && WellFormed(su, b) && Alike(su.g, d.s, b)
    ensures Alike(su.g, Handled(su, lines, d, Do(c)).s, Step(su, b, c))
  {
    hide FadedRepaint, SameColours, AllInside, AllFit;
    if c.Repaint? && d.s.silent && d.fadeIn {
      hide FullRepaint;
      FadedRepaintAlike(su, lines, d.s, b);
    } else {
      hide Step;
      StepAlike(su, d.s, b, c);
    }
  }

  /** The back buffer is the full composition and the window has its colours. */
  ghost predicate ColourExact(su: Setup, s: State)
    requires WellFormed(su, s)
  {
    && (forall x, y {:trigger s.buf[y][x]} :: OnScreen(su.g.xres, su.g.yres, x, y) ==>
          s.buf[y][x] == Reference(s.objs, s.progress, x, y, su.bg[y][x]))
    && (forall k :: 0 <= k < |s.fb| && InWindow(su.g, k) && IsColour(su.g.f, Where(su.g, k).c) ==>
          s.fb[k] == PictureByte(su.g, s.buf, k))
  }

  /** Runs that switch the fade-in on and off at will end with the right colours wherever the
      plain run ends exactly. */
  lemma FadedRunsEndExact(su: Setup, lines: nat, d: Display, es: seq<Event>)
    requires Ready(su, lines, d.s)
    requires var cmds := CommandsIn(es);
             cmds != [] && Paints(cmds[|cmds| - 1]) && Run(su, d.s, cmds).silent && HistoryOf(su, d.s, cmds).synced
    ensures ColourExact(su, Displayed(su, lines, d, es).s)
  {
    hide Displayed, Run, AllInside, AllFit, HistoryOf, Exact;
    FadedRunAlike(su, lines, d, es);
    RunsEndExact(su, d.s, CommandsIn(es));
    AlikeExact(su, Displayed(su, lines, d, es).s, Run(su, d.s, CommandsIn(es)));
  }

  lemma AlikeExact(su: Setup, a: State, b: State)
    requires WellFormed(su, a) && WellFormed(su, b) && Alike(su.g, a, b) && Exact(su, b)
    ensures ColourExact(su, a)
  {
    hide Reference, Where, EncodedByte, AllInside, AllFit, IsColour;
  }

  // --------------------------------------------------------------------- on the heap

  /** The number of bytes of a back buffer. */
  function BufferSize(g: Geometry): nat {
    MulMonotone(0, g.xres * g.yres, g.f.bpp);
    g.xres * g.yres * g.f.bpp
  }

  function ByteOf(g: Geometry, src: array2<Pixel>, k: nat): (v: byte)
    requires g.Valid() && src.Length0 == g.yres && src.Length1 == g.xres && k < BufferSize(g)
    reads src
    ensures v == BufferByte(g, Picture(src), k)
  {
    hide Place;
    var s := Place(g, k);
    EncodedByte(g.f, src[s.y, s.x], s.c)
  }

  lemma BytesAre(g: Geometry, img: Bitmap, s: seq<byte>)
    requires g.Valid() && g.IsBitmap(img) && |s| == BufferSize(g)
    requires forall k :: 0 <= k < |s| ==> s[k] == BufferByte(g, img, k)
    ensures s == Bytes(g, img)
  {
    hide BufferByte;
  }

  /** The bytes of the back buffer, which the program has in this form from the start. */
  method EncodeBuffer(g: Geometry, src: array2<Pixel>) returns (image: array<byte>)
    requires g.Valid() && src.Length0 == g.yres && src.Length1 == g.xres
    ensures fresh(image) && image[..] == Bytes(g, Picture(src))
  {
    hide Bytes, BufferByte, BufferSize, ByteOf;
    ghost var img := Picture(src);
    var n := BufferSize(g);
    image := new byte[n];
    for k := 0 to n
      invariant forall j :: 0 <= j < k ==> image[j] == ByteOf(g, src, j)
    {
      image[k] := ByteOf(g, src, k);
    }
    BytesAre(g, img, image[..]);
  }

  /** cmd_repaint with its effect, which is used once. */
  method CmdRepaint(t: Theme, lines: nat, fadeIn: bool) returns (left: bool)
    requires t.Valid() && Ready(t.su, lines, t.View())
    modifies t.objs, t.blit, t.blit.nodes, t.bgbuf, t.fb, t`vals
    ensures t.Valid() && fresh(t.blit.nodes - old(t.blit.nodes))
    ensures Display(t.View(), left) == Handled(t.su, lines, Display(old(t.View()), fadeIn), Do(Repaint))
  {
    hide t.Valid, FullRepaint, Rebuilt, FadedIn, AllInside, AllFit;
    left := fadeIn;
    if t.silent {
      if fadeIn {
        FadedScreen(t, lines);
        left := false;
      } else {
        t.RepaintScreen();
      }
    }
  }

  /** fbsplashr_render_screen with repaint and the fade-in effect. */
  method FadedScreen(t: Theme, lines: nat)
    requires t.Valid() && Ready(t.su, lines, t.View())
    modifies t.objs, t.blit, t.blit.nodes, t.bgbuf, t.fb, t`vals
    ensures t.Valid() && fresh(t.blit.nodes - old(t.blit.nodes))
    ensures t.View() == FadedRepaint(t.su, lines, old(t.View()))
  {
    hide t.Valid, Rebuilt, FadeRun.Faded, AllInside, AllFit, t.Fixed;
    Sizes(t);
    WindowFits(t.su.g, lines);
    t.RebuildBuffer();
    var image := EncodeBuffer(t.su.g, t.bgbuf);
    FadeRun.FadeTruecolor(WindowOf(t.su.g, lines), t.fb, image, false);
  }

  lemma Sizes(t: Theme)
    requires t.Valid()
    ensures t.su.Valid() && t.bgbuf.Length0 == t.su.g.yres && t.bgbuf.Length1 == t.su.g.xres && t.fb.Length == t.su.g.fbLength
  {
  }
}
