/**
  The loops of the true-colour fade over table, look-up table and framebuffer
  (core/src/effects.c, fade_truecolor).
 */
module FadeRun {
  import opened Rects
  import opened FadeColor

  /** The part of the framebuffer that belongs to the theme; lengths in pixels and lines, except
      lineLength, which is in bytes. */
  datatype Window = Window(xres: nat, yres: nat, xmarg: nat, ymarg: nat, lineLength: nat, fbLines: nat, f: Format) {
    predicate Valid() {
      && f.Valid() && xres > 0 && yres > 0
      && (xmarg + xres) * f.bpp <= lineLength && ymarg + yres <= fbLines
    }

    function Size(): nat { fbLines * lineLength }

    function RowLength(): nat { xres * f.bpp }

    /** The address of the first byte of row y of the window. */
    function RowAt(y: nat): nat { (y + ymarg) * lineLength + xmarg * f.bpp }

    predicate IsPicture(src: seq<byte>) {
      |src| == xres * yres * f.bpp
    }
  }

  /** The bytes of the i-th pixel of a picture. */
  function PixelOf(w: Window, src: seq<byte>, i: nat): (s: seq<byte>)
    requires w.IsPicture(src) && i < w.xres * w.yres
    ensures |s| == w.f.bpp
  {
    MulMonotone(i + 1, w.xres * w.yres, w.f.bpp);
    MulMonotone(0, i, w.f.bpp);
    assert (i + 1) * w.f.bpp == i * w.f.bpp + w.f.bpp;
    src[i * w.f.bpp..i * w.f.bpp + w.f.bpp]
  }

  lemma PixelIndex(w: Window, x: nat, y: nat)
    requires x < w.xres && y < w.yres
    ensures 0 <= y * w.xres + x < w.xres * w.yres
  {
    MulMonotone(y + 1, w.yres, w.xres);
    MulMonotone(0, y, w.xres);
  }

  /** The number of a pixel in the picture. */
  function IndexOf(w: Window, x: nat, y: nat): (i: nat)
    requires x < w.xres && y < w.yres
    ensures i < w.xres * w.yres && i == y * w.xres + x
  {
    PixelIndex(w, x, y);
    y * w.xres + x
  }

  /** The first n pixels of a row of the window after a step. */
  function Row(w: Window, src: seq<byte>, out: bool, step: nat, y: nat, n: nat): (r: seq<byte>)
    requires w.Valid() && w.IsPicture(src) && step < STEPS && y < w.yres && n <= w.xres
    ensures |r| == n * w.f.bpp
  {
    if n == 0 then []
    else
      Row(w, src, out, step, y, n - 1) + StepPixel(w.f, out, PixelOf(w, src, IndexOf(w, n - 1, y)), step)
  }

  /** A piece of the framebuffer replaced. */
  function Splice(fb: seq<byte>, at: nat, r: seq<byte>): (out: seq<byte>)
    requires at + |r| <= |fb|
    ensures |out| == |fb|
  {
    fb[..at] + r + fb[at + |r|..]
  }

  lemma LineBelow(a: nat, b: nat, length: nat)
    requires a < b
    ensures a * length + length <= b * length
  {
    MulMonotone(a + 1, b, length);
    assert (a + 1) * length == a * length + length;
  }

  lemma MarginAndRow(w: Window)
    requires w.Valid()
    ensures w.xmarg * w.f.bpp + w.RowLength() <= w.lineLength
  {
    assert (w.xmarg + w.xres) * w.f.bpp == w.xmarg * w.f.bpp + w.xres * w.f.bpp;
  }

  lemma RowFits(w: Window, y: nat)
    requires w.Valid() && y < w.yres
    ensures w.RowAt(y) + w.RowLength() <= w.Size()
  {
    hide w.Valid;
    MarginAndRow(w);
    Inside(w, y);
    LineBelow(y + w.ymarg, w.fbLines, w.lineLength);
  }

  lemma Inside(w: Window, y: nat)
    requires w.Valid() && y < w.yres
    ensures y + w.ymarg < w.fbLines
  {
  }

  lemma NextRow(w: Window, y: nat)
    ensures w.RowAt(y + 1) == w.RowAt(y) + w.lineLength
  {
  }

  lemma RowsApart(w: Window, a: nat, b: nat)
    requires w.Valid() && a < b < w.yres
    ensures w.RowAt(a) + w.RowLength() <= w.RowAt(b)
  {
    hide w.Valid;
    MarginAndRow(w);
    LineBelow(a + w.ymarg, b + w.ymarg, w.lineLength);
  }

  /** The framebuffer after a step has written the first n rows. */
  function Painted(w: Window, fb: seq<byte>, src: seq<byte>, out: bool, step: nat, n: nat): (fb': seq<byte>)
    requires w.Valid() && w.IsPicture(src) && |fb| == w.Size() && step < STEPS && n <= w.yres
    ensures |fb'| == |fb|
  {
    if n == 0 then fb
    else
      RowFits(w, n - 1);
      Splice(Painted(w, fb, src, out, step, n - 1), w.RowAt(n - 1), Row(w, src, out, step, n - 1, w.xres))
  }

  /** The framebuffer after the first n steps. */
  function Faded(w: Window, fb: seq<byte>, src: seq<byte>, out: bool, n: nat): (fb': seq<byte>)
    requires w.Valid() && w.IsPicture(src) && |fb| == w.Size() && n <= STEPS
    ensures |fb'| == |fb|
  {
    if n == 0 then fb else Painted(w, Faded(w, fb, src, out, n - 1), src, out, n - 1, w.yres)
  }

  /** What the framebuffer holds when the steps begin: a fade-in clears all of it first. */
  function Base(w: Window, fb: seq<byte>, out: bool): (b: seq<byte>)
    ensures |b| == |fb|
  {
    if out then fb else seq<byte>(|fb|, _ => 0)
  }

  // ------------------------------------------------------------------------ results

  predicate InRow(w: Window, y: nat, k: int) {
    w.RowAt(y) <= k < w.RowAt(y) + w.RowLength()
  }

  ghost predicate InWindow(w: Window, k: int) {
    exists y: nat :: y < w.yres && InRow(w, y, k)
  }

  lemma SpliceAt(fb: seq<byte>, at: nat, r: seq<byte>, k: nat)
    requires at + |r| <= |fb| && k < |fb|
    ensures Splice(fb, at, r)[k] == if at <= k < at + |r| then r[k - at] else fb[k]
  {
  }

  lemma SpliceRow(w: Window, fb: seq<byte>, y: nat, r: seq<byte>, k: nat)
    requires |r| == w.RowLength() && w.RowAt(y) + |r| <= |fb| && k < |fb|
    ensures Splice(fb, w.RowAt(y), r)[k] == if InRow(w, y, k) then r[k - w.RowAt(y)] else fb[k]
  {
    hide Splice, w.RowAt;
    SpliceAt(fb, w.RowAt(y), r, k);
  }

  lemma OneRow(w: Window, a: nat, b: nat, k: nat)
    requires w.Valid() && a < b < w.yres
    ensures !(InRow(w, a, k) && InRow(w, b, k))
  {
    hide w.RowAt;
    RowsApart(w, a, b);
  }

  /** A step writes the rows of the window and nothing else. */
  lemma {:induction false} PaintedByte(w: Window, fb: seq<byte>, src: seq<byte>, out: bool, step: nat, n: nat, k: nat)
    requires w.Valid() && w.IsPicture(src) && |fb| == w.Size() && step < STEPS && n <= w.yres && k < |fb|
    ensures forall y: nat :: y < n && InRow(w, y, k) ==>
              Painted(w, fb, src, out, step, n)[k] == Row(w, src, out, step, y, w.xres)[k - w.RowAt(y)]
    ensures (forall y: nat :: y < n ==> !InRow(w, y, k)) ==> Painted(w, fb, src, out, step, n)[k] == fb[k]
    decreases n
  {
    hide Row, Splice, InRow, w.RowAt;
    if n > 0 {
      var m := n - 1;
      PaintedByte(w, fb, src, out, step, m, k);
      RowFits(w, m);
      SpliceRow(w, Painted(w, fb, src, out, step, m), m, Row(w, src, out, step, m, w.xres), k);
      forall y: nat | y < m && InRow(w, y, k) ensures !InRow(w, m, k) {
        OneRow(w, y, m, k);
      }
      assert (forall y: nat :: y < n ==> !InRow(w, y, k)) ==> !InRow(w, m, k);
    }
  }

  /** Each step overwrites the one before it, so only the last one counts. */
  lemma {:induction false} LastStepCounts(w: Window, fb: seq<byte>, src: seq<byte>, out: bool, n: nat, k: nat)
    requires w.Valid() && w.IsPicture(src) && |fb| == w.Size() && 0 < n <= STEPS && k < |fb|
    ensures Faded(w, fb, src, out, n)[k] == Painted(w, fb, src, out, n - 1, w.yres)[k]
    decreases n
  {
    hide Painted, InRow, Row;
    var before := Faded(w, fb, src, out, n - 1);
    PaintedByte(w, before, src, out, n - 1, w.yres, k);
    PaintedByte(w, fb, src, out, n - 1, w.yres, k);
    if forall y: nat :: y < w.yres ==> !InRow(w, y, k) {
      if n > 1 {
        LastStepCounts(w, fb, src, out, n - 1, k);
        PaintedByte(w, fb, src, out, n - 2, w.yres, k);
      }
    }
  }

  lemma ColumnFits(w: Window, x: nat, n: nat)
    requires x < n <= w.xres
    ensures x * w.f.bpp + w.f.bpp <= n * w.f.bpp <= w.RowLength()
  {
    LineBelow(x, n, w.f.bpp);
    MulMonotone(n, w.xres, w.f.bpp);
  }

  lemma RowMore(w: Window, src: seq<byte>, out: bool, step: nat, y: nat, x: nat)
    requires w.Valid() && w.IsPicture(src) && step < STEPS && y < w.yres && x < w.xres
    ensures (x + 1) * w.f.bpp == x * w.f.bpp + w.f.bpp
    ensures Row(w, src, out, step, y, x + 1)
            == Row(w, src, out, step, y, x) + StepPixel(w.f, out, PixelOf(w, src, IndexOf(w, x, y)), step)
  {
    hide StepPixel, PixelOf, IndexOf;
  }

  lemma {:induction false} RowPrefix(w: Window, src: seq<byte>, out: bool, step: nat, y: nat, m: nat, n: nat)
    requires w.Valid() && w.IsPicture(src) && step < STEPS && y < w.yres && m <= n <= w.xres
    ensures Row(w, src, out, step, y, m) <= Row(w, src, out, step, y, n)
    decreases n
  {
    hide *;
    ValidFormat(w);
    if m < n {
      RowPrefix(w, src, out, step, y, m, n - 1);
      RowMore(w, src, out, step, y, n - 1);
      Extends(Row(w, src, out, step, y, m), Row(w, src, out, step, y, n - 1),
              StepPixel(w.f, out, PixelOf(w, src, IndexOf(w, n - 1, y)), step));
    }
  }

  lemma Extends(a: seq<byte>, b: seq<byte>, c: seq<byte>)
    requires a <= b
    ensures a <= b + c
  {
  }

  lemma LastPart(q: seq<byte>, t: seq<byte>, r: seq<byte>)
    requires q + t <= r
    ensures |q| + |t| <= |r| && r[|q|..|q| + |t|] == t
  {
    var u := r[|q|..|q| + |t|];
    forall k | 0 <= k < |t| ensures u[k] == t[k] {
      assert (q + t)[|q| + k] == t[k];
    }
  }

  /** The x-th pixel of a row. */
  lemma RowPixel(w: Window, src: seq<byte>, out: bool, step: nat, y: nat, n: nat, x: nat)
    requires w.Valid() && w.IsPicture(src) && step < STEPS && y < w.yres && x < n <= w.xres
    ensures x * w.f.bpp + w.f.bpp <= |Row(w, src, out, step, y, n)|
    ensures Row(w, src, out, step, y, n)[x * w.f.bpp..x * w.f.bpp + w.f.bpp]
            == StepPixel(w.f, out, PixelOf(w, src, IndexOf(w, x, y)), step)
  {
    hide *;
    ValidFormat(w);
    RowPrefix(w, src, out, step, y, x + 1, n);
    RowMore(w, src, out, step, y, x);
    LastPart(Row(w, src, out, step, y, x), StepPixel(w.f, out, PixelOf(w, src, IndexOf(w, x, y)), step), Row(w, src, out, step, y, n));
  }

  /** The bytes of pixel (x, y) of the window. */
  function Shown(w: Window, fb: seq<byte>, x: nat, y: nat): (s: seq<byte>)
    requires w.Valid() && |fb| == w.Size() && x < w.xres && y < w.yres
    ensures |s| == w.f.bpp
  {
    ColumnFits(w, x, w.xres);
    RowFits(w, y);
    fb[w.RowAt(y) + x * w.f.bpp..w.RowAt(y) + x * w.f.bpp + w.f.bpp]
  }

  /** After n steps every pixel of the window shows the last of them, and every byte outside the
      window is what it was when the steps began. */
  lemma AfterSteps(w: Window, fb: seq<byte>, src: seq<byte>, out: bool, n: nat, x: nat, y: nat)
    requires w.Valid() && w.IsPicture(src) && |fb| == w.Size() && 0 < n <= STEPS && x < w.xres && y < w.yres
    ensures Shown(w, Faded(w, fb, src, out, n), x, y) == StepPixel(w.f, out, PixelOf(w, src, IndexOf(w, x, y)), n - 1)
  {
    hide StepPixel, PixelOf, Row, Painted, Faded, w.RowAt;
    ColumnFits(w, x, w.xres);
    RowFits(w, y);
    RowPixel(w, src, out, n - 1, y, w.xres, x);
    RowShown(w, fb, src, out, n, y);
    Middle(Faded(w, fb, src, out, n), w.RowAt(y), w.RowLength(), x * w.f.bpp, w.f.bpp);
  }

  /** After n of 64 steps every component of every pixel of the window is n sixty-fourths of that of
      the picture in a fade-in, and what is left of 64 in a fade-out. */
  lemma ShareOnScreen(w: Window, fb: seq<byte>, src: seq<byte>, out: bool, n: nat, x: nat, y: nat)
    requires w.Valid() && w.f.FullDepth() && w.IsPicture(src) && |fb| == w.Size() && 0 < n <= 64 && x < w.xres && y < w.yres
    ensures var u, v, k := Load(PixelOf(w, src, IndexOf(w, x, y))), Load(Shown(w, Faded(w, fb, src, out, n), x, y)), if out then 64 - n else n;
            && IsQuotient(Field(v, w.f.red), k * Field(u, w.f.red), 64)
            && IsQuotient(Field(v, w.f.green), k * Field(u, w.f.green), 64)
            && IsQuotient(Field(v, w.f.blue), k * Field(u, w.f.blue), 64)
  {
    hide StepPixel, PixelOf, Shown, Faded, Load, Field, IsQuotient;
    AfterSteps(w, fb, src, out, n, x, y);
    ShownIsShare(w.f, out, PixelOf(w, src, IndexOf(w, x, y)), n - 1);
  }

  lemma Middle(a: seq<byte>, at: nat, length: nat, i: nat, n: nat)
    requires at + length <= |a| && i + n <= length
    ensures a[at..at + length][i..i + n] == a[at + i..at + i + n]
  {
    var u, v := a[at..at + length][i..i + n], a[at + i..at + i + n];
    forall k | 0 <= k < n ensures u[k] == v[k] {
      assert u[k] == a[at..at + length][i + k];
    }
  }

  lemma RowShown(w: Window, fb: seq<byte>, src: seq<byte>, out: bool, n: nat, y: nat)
    requires w.Valid() && w.IsPicture(src) && |fb| == w.Size() && 0 < n <= STEPS && y < w.yres
    ensures w.RowAt(y) + w.RowLength() <= |fb|
    ensures Faded(w, fb, src, out, n)[w.RowAt(y)..w.RowAt(y) + w.RowLength()] == Row(w, src, out, n - 1, y, w.xres)
  {
    hide Row, Painted, Faded, w.RowAt;
    RowFits(w, y);
    var s := Faded(w, fb, src, out, n)[w.RowAt(y)..w.RowAt(y) + w.RowLength()];
    forall j | 0 <= j < |s| ensures s[j] == Row(w, src, out, n - 1, y, w.xres)[j] {
      RowByte(w, fb, src, out, n, y, j);
    }
  }

  lemma RowByte(w: Window, fb: seq<byte>, src: seq<byte>, out: bool, n: nat, y: nat, j: nat)
    requires w.Valid() && w.IsPicture(src) && |fb| == w.Size() && 0 < n <= STEPS && y < w.yres && j < w.RowLength()
    ensures w.RowAt(y) + j < |fb|
    ensures Faded(w, fb, src, out, n)[w.RowAt(y) + j] == Row(w, src, out, n - 1, y, w.xres)[j]
  {
    hide Row, Painted, Faded, w.RowAt;
    RowFits(w, y);
    var k := w.RowAt(y) + j;
    LastStepCounts(w, fb, src, out, n, k);
    PaintedByte(w, fb, src, out, n - 1, w.yres, k);
    assert InRow(w, y, k);
  }

  lemma OutsideStays(w: Window, fb: seq<byte>, src: seq<byte>, out: bool, n: nat, k: nat)
    requires w.Valid() && w.IsPicture(src) && |fb| == w.Size() && 0 < n <= STEPS && k < |fb| && !InWindow(w, k)
    ensures Faded(w, fb, src, out, n)[k] == fb[k]
  {
    hide Row, Painted, Faded, InRow;
    LastStepCounts(w, fb, src, out, n, k);
    PaintedByte(w, fb, src, out, n - 1, w.yres, k);
  }

  /** The window has the colour bits of a picture; put_img would have written all its bits. */
  ghost predicate ShowsColours(w: Window, fb: seq<byte>, src: seq<byte>)
    requires w.Valid() && w.IsPicture(src) && |fb| == w.Size()
  {
    forall x: nat, y: nat | x < w.xres && y < w.yres ::
      Shown(w, fb, x, y) == Save(ColourOnly(w.f, Load(PixelOf(w, src, IndexOf(w, x, y)))))
  }

  lemma FadedPixel(w: Window, b: seq<byte>, src: seq<byte>, x: nat, y: nat)
    requires w.Valid() && w.f.FullDepth() && w.IsPicture(src) && |b| == w.Size() && x < w.xres && y < w.yres
    ensures Shown(w, Faded(w, b, src, false, STEPS), x, y) == Save(ColourOnly(w.f, Load(PixelOf(w, src, IndexOf(w, x, y)))))
  {
    hide Faded, Shown, PixelOf, StepPixel, Save, ColourOnly, Load;
    AfterSteps(w, b, src, false, STEPS, x, y);
    FadeInEnds(w.f, PixelOf(w, src, IndexOf(w, x, y)));
  }

  /** A whole fade-in, on sixteen-bit pixels or with components of a byte: at the end the window
      has the colour bits of the picture, and everything else on the screen is zero. */
  lemma FadeInShows(w: Window, fb: seq<byte>, src: seq<byte>)
    requires w.Valid() && w.f.FullDepth() && w.IsPicture(src) && |fb| == w.Size()
    ensures ShowsColours(w, Faded(w, Base(w, fb, false), src, false, STEPS), src)
    ensures forall k :: 0 <= k < |fb| && !InWindow(w, k) ==> Faded(w, Base(w, fb, false), src, false, STEPS)[k] == 0
  {
    hide Faded, Shown, PixelOf, InWindow, StepPixel, Save, ColourOnly, Load, IndexOf;
    var b := Base(w, fb, false);
    forall x: nat, y: nat | x < w.xres && y < w.yres
      ensures Shown(w, Faded(w, b, src, false, STEPS), x, y) == Save(ColourOnly(w.f, Load(PixelOf(w, src, IndexOf(w, x, y)))))
    {
      FadedPixel(w, b, src, x, y);
    }
    forall k | 0 <= k < |fb| && !InWindow(w, k) ensures Faded(w, b, src, false, STEPS)[k] == 0 {
      OutsideStays(w, b, src, false, STEPS, k);
    }
  }

  lemma {:induction false} RowCleared(w: Window, src: seq<byte>, y: nat, n: nat, j: nat)
    requires w.Valid() && w.IsPicture(src) && y < w.yres && n <= w.xres && j < n * w.f.bpp
    ensures Row(w, src, true, STEPS - 1, y, n)[j] == 0
    decreases n
  {
    hide StepPixel, PixelOf, w.Valid;
    var m := n - 1;
    assert n * w.f.bpp == m * w.f.bpp + w.f.bpp;
    if j < m * w.f.bpp {
      RowCleared(w, src, y, m, j);
    } else {
      ValidFormat(w);
      FadeOutEnds(w.f, PixelOf(w, src, IndexOf(w, m, y)));
    }
  }

  lemma ValidFormat(w: Window)
    requires w.Valid()
    ensures w.f.Valid()
  {
  }

  /** A whole fade-out, in any format: at the end the window is zero, and nothing else on the
      screen has changed. */
  lemma FadeOutClears(w: Window, fb: seq<byte>, src: seq<byte>, k: nat)
    requires w.Valid() && w.IsPicture(src) && |fb| == w.Size() && k < |fb|
    ensures Faded(w, Base(w, fb, true), src, true, STEPS)[k] == if InWindow(w, k) then 0 else fb[k]
  {
    hide Faded, Row, w.RowAt;
    if InWindow(w, k) {
      var y: nat :| y < w.yres && InRow(w, y, k);
      RowByte(w, fb, src, true, STEPS, y, k - w.RowAt(y));
      RowCleared(w, src, y, w.xres, k - w.RowAt(y));
    } else {
      OutsideStays(w, fb, src, true, STEPS, k);
    }
  }

  // -------------------------------------------------------------------------- loops

  /** The decoded table holds three bytes for each pixel. */
  ghost predicate Decoded(w: Window, src: seq<byte>, t: seq<byte>, n: nat)
    requires w.Valid() && w.IsPicture(src) && n <= w.xres * w.yres
  {
    && 3 * n <= |t|
    && forall i :: 0 <= i < n ==>
         Unpack(w.f, PixelOf(w, src, i)) == Rgb(t[3 * i], t[3 * i + 1], t[3 * i + 2])
  }

  lemma DecodedMore(w: Window, src: seq<byte>, t: seq<byte>, t': seq<byte>, i: nat)
    requires w.Valid() && w.IsPicture(src) && i < w.xres * w.yres && Decoded(w, src, t, i)
    requires |t'| == |t| && 3 * i + 3 <= |t| && t'[..3 * i] == t[..3 * i]
    requires Unpack(w.f, PixelOf(w, src, i)) == Rgb(t'[3 * i], t'[3 * i + 1], t'[3 * i + 2])
    ensures Decoded(w, src, t', i + 1)
  {
    hide Unpack, PixelOf;
    forall k | 0 <= k < i + 1
      ensures Unpack(w.f, PixelOf(w, src, k)) == Rgb(t'[3 * k], t'[3 * k + 1], t'[3 * k + 2])
    {
      if k < i {
        assert t'[..3 * i][3 * k] == t[3 * k] && t'[..3 * i][3 * k + 1] == t[3 * k + 1] && t'[..3 * i][3 * k + 2] == t[3 * k + 2];
      }
    }
  }

  /** The first loop: the picture is decoded into a table. */
  method DecodeImage(w: Window, image: array<byte>) returns (t: array<byte>)
    requires w.Valid() && w.IsPicture(image[..])
    ensures fresh(t) && t.Length == 3 * (w.xres * w.yres) && Decoded(w, image[..], t[..], w.xres * w.yres)
  {
    hide Unpack, Decoded, w.Valid;
    var n := w.xres * w.yres;
    t := new byte[3 * n];
    var pic := 0;
    NothingDecoded(w, image[..], t[..]);
    for i := 0 to n
      invariant pic == i * w.f.bpp && Decoded(w, image[..], t[..], i)
    {
      ValidFormat(w);
      LineBelow(i, n, w.f.bpp);
      var p := Unpack(w.f, image[pic..pic + w.f.bpp]);
      assert image[..][pic..pic + w.f.bpp] == image[pic..pic + w.f.bpp];
      ghost var before := t[..];
      t[i * 3], t[i * 3 + 1], t[i * 3 + 2] := p.r, p.g, p.b;
      assert t[..3 * i] == before[..3 * i];
      DecodedMore(w, image[..], before, t[..], i);
      pic := pic + w.f.bpp;
    }
  }

  lemma NothingDecoded(w: Window, src: seq<byte>, t: seq<byte>)
    requires w.Valid() && w.IsPicture(src)
    ensures Decoded(w, src, t, 0)
  {
    MulMonotone(0, w.xres, w.yres);
  }

  /** The colour look-up table. */
  method MakeClut(out: bool) returns (clut: array2<byte>)
    ensures fresh(clut) && clut.Length0 == 256 && clut.Length1 == STEPS
    ensures forall i, s :: 0 <= i < 256 && 0 <= s < STEPS ==> clut[i, s] == Clut(out, i, s)
  {
    hide Clut;
    clut := new byte[256, STEPS];
    for step := 0 to STEPS
      invariant forall i, s :: 0 <= i < 256 && 0 <= s < step ==> clut[i, s] == Clut(out, i, s)
    {
      for i := 0 to 256
        invariant forall j, s :: 0 <= j < 256 && 0 <= s < step ==> clut[j, s] == Clut(out, j, s)
        invariant forall j :: 0 <= j < i ==> clut[j, step] == Clut(out, j, step)
      {
        clut[i, step] := Clut(out, i, step);
      }
    }
  }

  /** One pixel: look up, shift, pack and store. */
  method PutFaded(f: Format, dst: array<byte>, pic: nat, p: Rgb, clut: array2<byte>, ghost out: bool, step: nat)
    requires f.Valid() && pic + f.bpp <= dst.Length && dst != clut as object && step < STEPS
    requires clut.Length0 == 256 && clut.Length1 == STEPS
    requires forall i, s :: 0 <= i < 256 && 0 <= s < STEPS ==> clut[i, s] == Clut(out, i, s)
    modifies dst
    ensures dst[..] == Splice(old(dst[..]), pic, Save(PackRgb(f, AtStep(out, p, step))))
  {
    hide Clut, Level, Pack, Save;
    ghost var before := dst[..];
    var rt, gt, bt: byte := clut[p.r, step], clut[p.g, step], clut[p.b, step];
    var h := PackRgb(f, Rgb(rt, gt, bt));
    dst[pic], dst[pic + 1] := ByteAt(h, 0), ByteAt(h, 1);
    if f.bpp >= 3 {
      dst[pic + 2] := ByteAt(h, 2);
    }
    if f.bpp == 4 {
      dst[pic + 3] := ByteAt(h, 3);
    }
    Stored(f.bpp, h, before, dst[..], pic);
  }

  lemma Stored(bpp: nat, h: Word, before: seq<byte>, after: seq<byte>, pic: nat)
    requires 2 <= bpp <= 4 && |h| == 8 * bpp && |before| == |after| && pic + bpp <= |before|
    requires after[..pic] == before[..pic] && after[pic + bpp..] == before[pic + bpp..]
    requires after[pic] == ByteAt(h, 0) && after[pic + 1] == ByteAt(h, 1)
    requires (bpp >= 3 ==> after[pic + 2] == ByteAt(h, 2)) && (bpp == 4 ==> after[pic + 3] == ByteAt(h, 3))
    ensures after == Splice(before, pic, Save(h))
  {
    hide ByteAt;
    assert after == after[..pic] + after[pic..pic + bpp] + after[pic + bpp..];
    var s := after[pic..pic + bpp];
    forall j | 0 <= j < bpp ensures s[j] == Save(h)[j] {
      assert s[j] == after[pic + j];
    }
    assert s == Save(h);
  }

  lemma SpliceMore(b: seq<byte>, at: nat, r: seq<byte>, s: seq<byte>)
    requires at + |r| + |s| <= |b|
    ensures Splice(Splice(b, at, r), at + |r|, s) == Splice(b, at, r + s)
  {
    var u, v := Splice(Splice(b, at, r), at + |r|, s), Splice(b, at, r + s);
    forall k | 0 <= k < |b| ensures u[k] == v[k] {
      SpliceAt(b, at, r, k);
      SpliceAt(Splice(b, at, r), at + |r|, s, k);
      SpliceAt(b, at, r + s, k);
    }
  }

  lemma NoSplice(b: seq<byte>, at: nat)
    requires at <= |b|
    ensures Splice(b, at, []) == b
  {
  }

  /** A table entry, read through the advancing pointer, is a decoded pixel. */
  lemma TableEntry(w: Window, src: seq<byte>, t: seq<byte>, y: nat, x: nat)
    requires w.Valid() && w.IsPicture(src) && x < w.xres && y < w.yres && Decoded(w, src, t, w.xres * w.yres)
    ensures var i := IndexOf(w, x, y);
            && 3 * i + 3 <= |t|
            && Unpack(w.f, PixelOf(w, src, i)) == Rgb(t[3 * i], t[3 * i + 1], t[3 * i + 2])
  {
    TableAt(w, src, t, w.xres * w.yres, IndexOf(w, x, y));
  }

  lemma TableAt(w: Window, src: seq<byte>, t: seq<byte>, n: nat, i: nat)
    requires w.Valid() && w.IsPicture(src) && i < n <= w.xres * w.yres && Decoded(w, src, t, n)
    ensures 3 * i + 3 <= |t|
    ensures Unpack(w.f, PixelOf(w, src, i)) == Rgb(t[3 * i], t[3 * i + 1], t[3 * i + 2])
  {
    hide Unpack, PixelOf;
  }

  /** The loop over one row. */
  method FadeRow(w: Window, ghost src: seq<byte>, t: array<byte>, dst: array<byte>, pic0: nat, p0: nat,
                 clut: array2<byte>, ghost out: bool, step: nat, ghost y: nat)
    returns (pic: nat, p: nat)
    requires w.Valid() && w.IsPicture(src) && step < STEPS && y < w.yres && dst.Length == w.Size() && t != dst
    requires Decoded(w, src, t[..], w.xres * w.yres) && pic0 == w.RowAt(y) && p0 == 3 * (y * w.xres)
    requires clut.Length0 == 256 && clut.Length1 == STEPS && dst != clut as object
    requires forall i, s :: 0 <= i < 256 && 0 <= s < STEPS ==> clut[i, s] == Clut(out, i, s)
    modifies dst
    ensures pic == pic0 + w.RowLength() && p == 3 * (y * w.xres + w.xres)
    ensures w.RowAt(y) + w.RowLength() <= w.Size()
    ensures dst[..] == Splice(old(dst[..]), w.RowAt(y), Row(w, src, out, step, y, w.xres))
  {
    hide Clut, Decoded, Splice, PixelOf, Unpack, PackRgb, AtStep, Save, w.RowAt, w.Valid;
    ghost var before := dst[..];
    RowFits(w, y);
    pic, p := pic0, p0;
    NoSplice(before, pic0);
    for x := 0 to w.xres
      invariant pic == pic0 + x * w.f.bpp && pic <= pic0 + w.RowLength() && p == 3 * (y * w.xres + x)
      invariant dst[..] == Splice(before, pic0, Row(w, src, out, step, y, x))
    {
      ghost var mid, done := dst[..], Row(w, src, out, step, y, x);
      ValidFormat(w);
      ColumnFits(w, x, w.xres);
      TableEntry(w, src, t[..], y, x);
      PutFaded(w.f, dst, pic, Rgb(t[p], t[p + 1], t[p + 2]), clut, out, step);
      ghost var s := StepPixel(w.f, out, PixelOf(w, src, IndexOf(w, x, y)), step);
      assert dst[..] == Splice(mid, pic, s);
      SpliceMore(before, pic0, done, s);
      RowMore(w, src, out, step, y, x);
      pic, p := pic + w.f.bpp, p + 3;
    }
  }

  /** One step over the window; the pointer skips the rest of each line. */
  method FadeStep(w: Window, ghost src: seq<byte>, t: array<byte>, dst: array<byte>, clut: array2<byte>, ghost out: bool, step: nat)
    requires w.Valid() && w.IsPicture(src) && step < STEPS && dst.Length == w.Size() && t != dst
    requires Decoded(w, src, t[..], w.xres * w.yres)
    requires clut.Length0 == 256 && clut.Length1 == STEPS && dst != clut as object
    requires forall i, s :: 0 <= i < 256 && 0 <= s < STEPS ==> clut[i, s] == Clut(out, i, s)
    modifies dst
    ensures dst[..] == Painted(w, old(dst[..]), src, out, step, w.yres)
  {
    hide Clut, Decoded, Row, Splice, w.Valid;
    var pic := w.lineLength * w.ymarg + w.xmarg * w.f.bpp;
    var p := 0;
    ghost var before := dst[..];
    assert pic == w.RowAt(0);
    hide w.RowAt;
    for y := 0 to w.yres
      invariant pic == w.RowAt(y) && p == 3 * (y * w.xres)
      invariant dst[..] == Painted(w, before, src, out, step, y)
    {
      pic, p := FadeRow(w, src, t, dst, pic, p, clut, out, step, y);
      NextRow(w, y);
      MarginAndRow(w);
      assert (y + 1) * w.xres == y * w.xres + w.xres;
      pic := pic + w.lineLength - w.xres * w.f.bpp;
    }
  }

  /** memset of the whole framebuffer. */
  method Clear(dst: array<byte>)
    modifies dst
    ensures dst[..] == seq<byte>(dst.Length, _ => 0)
  {
    for k := 0 to dst.Length
      invariant forall i :: 0 <= i < k ==> dst[i] == 0
    {
      dst[k] := 0;
    }
  }

  /** fade_truecolor, with `out` for the type of the fade. */
  method FadeTruecolor(w: Window, dst: array<byte>, image: array<byte>, out: bool)
    requires w.Valid() && w.IsPicture(image[..]) && dst.Length == w.Size() && dst != image
    modifies dst
    ensures dst[..] == Faded(w, Base(w, old(dst[..]), out), image[..], out, STEPS)
    ensures !out && w.f.FullDepth() ==> ShowsColours(w, dst[..], image[..])
    ensures !out ==> forall k :: 0 <= k < dst.Length && !InWindow(w, k) ==> dst[k] == 0
    ensures out ==> forall k :: 0 <= k < dst.Length ==> dst[k] == if InWindow(w, k) then 0 else old(dst[k])
  {
    hide Clut, Decoded, Painted, Faded, ShowsColours, InWindow, w.Valid;
    ghost var fb := dst[..];
    ghost var src, base := image[..], Base(w, dst[..], out);
    var t := DecodeImage(w, image);
    ghost var decoded := t[..];
    var clut := MakeClut(out);
    if !out {
      Clear(dst);
    }
    assert t[..] == decoded;
    NoSteps(w, base, src, out);
    ghost var table := t[..];
    for step := 0 to STEPS
      invariant dst[..] == Faded(w, base, src, out, step) && t[..] == table
      modifies dst
    {
      FadeStep(w, src, t, dst, clut, out, step);
      OneStep(w, base, src, out, step);
    }
    if !out && w.f.FullDepth() {
      FadeInShows(w, fb, src);
    }
    forall k | 0 <= k < dst.Length
      ensures !out && !InWindow(w, k) ==> dst[k] == 0
      ensures out ==> dst[k] == if InWindow(w, k) then 0 else fb[k]
    {
      if out {
        FadeOutClears(w, fb, src, k);
      } else if !InWindow(w, k) {
        OutsideStays(w, base, src, out, STEPS, k);
      }
    }
  }

  lemma NoSteps(w: Window, fb: seq<byte>, src: seq<byte>, out: bool)
    requires w.Valid() && w.IsPicture(src) && |fb| == w.Size()
    ensures Faded(w, fb, src, out, 0) == fb
  {
  }

  lemma OneStep(w: Window, fb: seq<byte>, src: seq<byte>, out: bool, n: nat)
    requires w.Valid() && w.IsPicture(src) && |fb| == w.Size() && n < STEPS
    ensures Faded(w, fb, src, out, n + 1) == Painted(w, Faded(w, fb, src, out, n), src, out, n, w.yres)
  {
    hide Painted;
  }
}
