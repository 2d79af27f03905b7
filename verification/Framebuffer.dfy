/**
  Copying the back buffer to the framebuffer (core/src/effects.c: put_img, paint_rect, paint_img).

  The framebuffer is a flat run of bytes in lines of `lineLength` bytes.  The theme occupies a
  window of xres x yres pixels in it, `xmarg` pixels from the left and `ymarg` lines from the top.
 */
module Framebuffer {
  import opened Rects
  import opened Pixels
  import opened Lists

  type Bitmap = seq<seq<Pixel>>

  datatype Geometry = Geometry(xres: nat, yres: nat, xmarg: nat, ymarg: nat, lineLength: nat, fbLength: nat, f: Layout) {

    /** The window lies inside the framebuffer. */
    predicate Valid() {
      && f.Valid() && xres > 0 && yres > 0
      && (xmarg + xres) * f.bpp <= lineLength
      && (ymarg + yres) * lineLength <= fbLength
    }

    predicate IsBitmap(b: Bitmap) {
      |b| == yres && forall y {:trigger b[y]} :: 0 <= y < yres ==> |b[y]| == xres
    }
  }

  /** A byte position in theme coordinates: column, row, and byte within the pixel. */
  datatype Spot = Spot(x: int, y: int, c: nat)

  function Where(g: Geometry, k: nat): (s: Spot)
    requires g.Valid()
    ensures s.c < g.f.bpp
  {
    MulMonotone(1, g.xmarg + g.xres, g.f.bpp);
    Spot(k % g.lineLength / g.f.bpp - g.xmarg, k / g.lineLength - g.ymarg, k % g.lineLength % g.f.bpp)
  }

  predicate InWindow(g: Geometry, k: nat)
    requires g.Valid()
  {
    OnScreen(g.xres, g.yres, Where(g, k).x, Where(g, k).y)
  }

  /** The byte of the picture that belongs at a position of the window. */
  function PictureByte(g: Geometry, img: Bitmap, k: nat): byte
    requires g.Valid() && g.IsBitmap(img) && InWindow(g, k)
  {
    var s := Where(g, k);
    EncodedByte(g.f, img[s.y][s.x], s.c)
  }

  /** The framebuffer after the pixels of one rectangle have been copied. */
  function Copied(g: Geometry, fb: seq<byte>, img: Bitmap, r: Rect): (out: seq<byte>)
    requires g.Valid() && g.IsBitmap(img)
    ensures |out| == |fb|
    ensures forall k :: 0 <= k < |fb| ==> out[k] == CopiedByte(g, fb[k], img, r, k)
  {
    seq<byte>(|fb|, (k: nat) requires k < |fb| => CopiedByte(g, fb[k], img, r, k))
  }

  function CopiedByte(g: Geometry, v: byte, img: Bitmap, r: Rect, k: nat): byte
    requires g.Valid() && g.IsBitmap(img)
  {
    if InWindow(g, k) && Has(r, Where(g, k).x, Where(g, k).y) then PictureByte(g, img, k) else v
  }

  /** The framebuffer after the rectangles of a list have been copied in turn. */
  function CopiedAll(g: Geometry, fb: seq<byte>, img: Bitmap, rs: seq<Rect>): (out: seq<byte>)
    requires g.Valid() && g.IsBitmap(img)
    ensures |out| == |fb|
    decreases |rs|
  {
    if rs == [] then fb else CopiedAll(g, Copied(g, fb, img, rs[0]), img, rs[1..])
  }

  /** The window shows the picture at every pixel outside the rectangles. */
  ghost predicate ShowsOutside(g: Geometry, fb: seq<byte>, img: Bitmap, rs: seq<Rect>)
    requires g.Valid() && g.IsBitmap(img)
  {
    forall k :: 0 <= k < |fb| && InWindow(g, k) && !Covered(rs, Where(g, k).x, Where(g, k).y)
      ==> fb[k] == PictureByte(g, img, k)
  }

  ghost predicate Shows(g: Geometry, fb: seq<byte>, img: Bitmap)
    requires g.Valid() && g.IsBitmap(img)
  {
    forall k :: 0 <= k < |fb| && InWindow(g, k) ==> fb[k] == PictureByte(g, img, k)
  }

  /** Nothing outside the window differs. */
  ghost predicate SameMargins(g: Geometry, fb: seq<byte>, fb': seq<byte>)
    requires g.Valid()
  {
    |fb| == |fb'| && forall k :: 0 <= k < |fb| && !InWindow(g, k) ==> fb'[k] == fb[k]
  }

  // ---------------------------------------------------------------------- lemmas

  /** Copying a list of rectangles, in any order and with any overlap, puts the picture on the
      union of them and leaves every other byte alone. */
  lemma {:induction false} CopiedAllIsUnion(g: Geometry, fb: seq<byte>, img: Bitmap, rs: seq<Rect>, k: nat)
    requires g.Valid() && g.IsBitmap(img) && k < |fb|
    ensures CopiedAll(g, fb, img, rs)[k] ==
            if InWindow(g, k) && Covered(rs, Where(g, k).x, Where(g, k).y) then PictureByte(g, img, k) else fb[k]
    decreases |rs|
  {
    hide Where, PictureByte, Has;
    if rs != [] {
      var fb' := Copied(g, fb, img, rs[0]);
      CopiedAllIsUnion(g, fb', img, rs[1..], k);
      var s := Where(g, k);
      CoveredSplit(rs, s.x, s.y);
      assert fb'[k] == CopiedByte(g, fb[k], img, rs[0], k);
    }
  }

  lemma CoveredSplit(rs: seq<Rect>, x: int, y: int)
    requires rs != []
    ensures Covered(rs, x, y) <==> Has(rs[0], x, y) || Covered(rs[1..], x, y)
  {
    hide Has;
    if Covered(rs, x, y) {
      var i :| 0 <= i < |rs| && Has(rs[i], x, y);
      assert i > 0 ==> Has(rs[1..][i - 1], x, y);
    }
    if Covered(rs[1..], x, y) {
      var i :| 0 <= i < |rs[1..]| && Has(rs[1..][i], x, y);
      assert Has(rs[i + 1], x, y);
    }
  }

  /** Copying the damage restores the picture everywhere, and touches nothing outside the window. */
  lemma CopyingDamageShows(g: Geometry, fb: seq<byte>, img: Bitmap, rs: seq<Rect>)
    requires g.Valid() && g.IsBitmap(img) && ShowsOutside(g, fb, img, rs)
    ensures Shows(g, CopiedAll(g, fb, img, rs), img)
    ensures SameMargins(g, fb, CopiedAll(g, fb, img, rs))
  {
    hide Where, PictureByte, Covered, CopiedAll;
    forall k | 0 <= k < |fb|
      ensures InWindow(g, k) ==> CopiedAll(g, fb, img, rs)[k] == PictureByte(g, img, k)
      ensures !InWindow(g, k) ==> CopiedAll(g, fb, img, rs)[k] == fb[k]
    {
      CopiedAllIsUnion(g, fb, img, rs, k);
    }
  }

  /** A copy of the whole window shows the picture whatever was there before. */
  lemma FullCopyShows(g: Geometry, fb: seq<byte>, img: Bitmap)
    requires g.Valid() && g.IsBitmap(img)
    ensures Shows(g, Copied(g, fb, img, Rect(0, g.xres - 1, 0, g.yres - 1)), img)
    ensures SameMargins(g, fb, Copied(g, fb, img, Rect(0, g.xres - 1, 0, g.yres - 1)))
  {
    hide Where, PictureByte;
  }

  /** Copying any rectangle keeps a window that already shows the picture. */
  lemma CopyKeepsShowing(g: Geometry, fb: seq<byte>, img: Bitmap, r: Rect)
    requires g.Valid() && g.IsBitmap(img) && Shows(g, fb, img)
    ensures Shows(g, Copied(g, fb, img, r), img)
    ensures SameMargins(g, fb, Copied(g, fb, img, r))
  {
    hide Where, PictureByte;
  }

  // ------------------------------------------------------------------- addressing

  lemma DivModOf(q: int, r: int, m: int)
    requires m > 0 && 0 <= r < m && q >= 0
    ensures (q * m + r) / m == q && (q * m + r) % m == r
  {
    var n := q * m + r;
    assert n == (n / m) * m + n % m;
    if n / m > q {
      MulMonotone(q + 1, n / m, m);
    } else if n / m < q {
      MulMonotone(n / m + 1, q, m);
    }
  }

  /** Byte address of the leftmost byte of pixel (x, y) of the window. */
  function Address(g: Geometry, x: int, y: int): int {
    (y + g.ymarg) * g.lineLength + (x + g.xmarg) * g.f.bpp
  }

  lemma ColumnOf(bpp: nat, m: int, i: int)
    requires (bpp == 3 || bpp == 4) && m >= 0 && i >= 0
    ensures (m * bpp + i) / bpp == m + i / bpp && (m * bpp + i) % bpp == i % bpp
  {
  }

  /** Where the i-th byte after the address of a pixel is. */
  lemma WhereInRow(g: Geometry, x: nat, y: nat, i: nat)
    requires g.Valid() && (x + g.xmarg) * g.f.bpp + i < g.lineLength
    ensures Address(g, x, y) + i >= 0
    ensures Where(g, Address(g, x, y) + i) == Spot(x + i / g.f.bpp, y, i % g.f.bpp)
  {
    var col := (x + g.xmarg) * g.f.bpp + i;
    MulMonotone(0, x + g.xmarg, g.f.bpp);
    MulMonotone(0, y + g.ymarg, g.lineLength);
    DivModOf(y + g.ymarg, col, g.lineLength);
    ColumnOf(g.f.bpp, x + g.xmarg, i);
  }

  /** Every byte of row y from column x on is found at its distance from the address of (x, y). */
  lemma RowIsContiguous(g: Geometry, k: nat, x: nat, y: nat)
    requires g.Valid() && Where(g, k).y == y && Where(g, k).x >= x
    ensures k == Address(g, x, y) + (Where(g, k).x - x) * g.f.bpp + Where(g, k).c
  {
    var s := Where(g, k);
    var col := k % g.lineLength;
    DivMod(k, g.lineLength);
    DivMod(col, g.f.bpp);
    SplitProduct(x + g.xmarg, s.x - x, g.f.bpp);
  }

  lemma DivMod(v: nat, m: nat)
    requires m > 0
    ensures v == (v / m) * m + v % m
  {
  }

  lemma SplitProduct(a: int, b: int, m: int)
    ensures (a + b) * m == a * m + b * m
  {
  }

  /** Where a full copy puts every byte of every pixel: lines and pixels follow each other, after
      the margins. */
  lemma FullCopyAt(g: Geometry, fb: seq<byte>, img: Bitmap, x: nat, y: nat, c: nat)
    requires g.Valid() && g.IsBitmap(img) && |fb| == g.fbLength && x < g.xres && y < g.yres && c < g.f.bpp
    ensures var k := (g.ymarg + y) * g.lineLength + (g.xmarg + x) * g.f.bpp + c;
            && 0 <= k < |fb|
            && Copied(g, fb, img, Rect(0, g.xres - 1, 0, g.yres - 1))[k] == Encode(g.f, img[y][x])[c]
  {
    hide Where, Copied;
    RowFits(g, x, 1, y);
    RunStaysInLine(g, x, 1, c);
    WhereInRow(g, x, y, c);
    OffsetOfByte(c, g.f.bpp);
    var k := Address(g, x, y) + c;
    assert Copied(g, fb, img, Rect(0, g.xres - 1, 0, g.yres - 1))[k] == CopiedByte(g, fb[k], img, Rect(0, g.xres - 1, 0, g.yres - 1), k);
  }

  lemma OffsetOfByte(c: nat, n: nat)
    requires c < n
    ensures c / n == 0 && c % n == c
  {
  }

  // ---------------------------------------------------------------- the copy loops

  /** The contents of a back buffer. */
  ghost function Picture(a: array2<Pixel>): (b: Bitmap)
    reads a
    ensures |b| == a.Length0
    ensures forall y {:trigger b[y]} :: 0 <= y < |b| ==> |b[y]| == a.Length1 && forall x :: 0 <= x < a.Length1 ==> b[y][x] == a[y, x]
  {
    seq(a.Length0, y requires 0 <= y < a.Length0 reads a =>
      seq(a.Length1, x requires 0 <= x < a.Length1 reads a => a[y, x]))
  }

  lemma IndexInRun(n: nat, bpp: nat, i: nat)
    requires (bpp == 3 || bpp == 4) && i < n * bpp
    ensures i / bpp < n
  {
    var q := i / bpp;
    if q >= n {
      MulMonotone(n, q, bpp);
    }
  }

  predicate InRun(k: int, to: int, length: int) {
    to <= k < to + length
  }

  /** memcpy of n pixels of row y, starting at column x, to byte position `to`. */
  method CopyRun(g: Geometry, dst: array<byte>, to: nat, src: array2<Pixel>, x: nat, y: nat, n: nat)
    requires g.Valid() && to + n * g.f.bpp <= dst.Length
    requires y < src.Length0 && x + n <= src.Length1
    modifies dst
    ensures forall k :: 0 <= k < dst.Length && !InRun(k, to, n * g.f.bpp) ==> dst[k] == old(dst[k])
    ensures forall k :: 0 <= k < dst.Length && InRun(k, to, n * g.f.bpp) ==>
              (k - to) / g.f.bpp < n && dst[k] == EncodedByte(g.f, src[y, x + (k - to) / g.f.bpp], (k - to) % g.f.bpp)
  {
    var bpp := g.f.bpp;
    for i := 0 to n * bpp
      invariant forall k :: 0 <= k < dst.Length && !InRun(k, to, i) ==> dst[k] == old(dst[k])
      invariant forall k :: 0 <= k < dst.Length && InRun(k, to, i) ==>
                  (k - to) / bpp < n && dst[k] == EncodedByte(g.f, src[y, x + (k - to) / bpp], (k - to) % bpp)
    {
      IndexInRun(n, bpp, i);
      dst[to + i] := EncodedByte(g.f, src[y, x + i / bpp], i % bpp);
    }
  }

  /** Copying one more row of a rectangle. */
  lemma OneMoreRow(g: Geometry, fb: seq<byte>, img: Bitmap, x1: nat, x2: nat, y1: int, y: nat, mid: seq<byte>, out: seq<byte>)
    requires g.Valid() && g.IsBitmap(img) && x1 <= x2 < g.xres && y1 <= y < g.yres
    requires |fb| == g.fbLength == |out| && mid == Copied(g, fb, img, Rect(x1, x2, y1, y - 1))
    requires var to, n := Address(g, x1, y), x2 - x1 + 1;
             && (forall k :: 0 <= k < |out| && !InRun(k, to, n * g.f.bpp) ==> out[k] == mid[k])
             && (forall k :: 0 <= k < |out| && InRun(k, to, n * g.f.bpp) ==>
                   (k - to) / g.f.bpp < n && out[k] == EncodedByte(g.f, img[y][x1 + (k - to) / g.f.bpp], (k - to) % g.f.bpp))
    ensures out == Copied(g, fb, img, Rect(x1, x2, y1, y))
  {
    hide Where, EncodedByte, Address;
    var to, n, bpp := Address(g, x1, y), x2 - x1 + 1, g.f.bpp;
    var r := Rect(x1, x2, y1, y);
    forall k | 0 <= k < |out| ensures out[k] == CopiedByte(g, fb[k], img, r, k) {
      var s := Where(g, k);
      assert mid[k] == CopiedByte(g, fb[k], img, Rect(x1, x2, y1, y - 1), k);
      if InRun(k, to, n * bpp) {
        RunStaysInLine(g, x1, n, k - to);
        WhereInRow(g, x1, y, k - to);
      } else if s.y == y && x1 <= s.x <= x2 {
        RowIsContiguous(g, k, x1, y);
        RunOffset(s.x - x1, n, bpp, s.c);
        assert false;
      }
    }
  }

  lemma RunStaysInLine(g: Geometry, x: nat, n: nat, i: nat)
    requires g.Valid() && x + n <= g.xres && i < n * g.f.bpp
    ensures (x + g.xmarg) * g.f.bpp + i < g.lineLength
  {
    assert (x + g.xmarg) * g.f.bpp + n * g.f.bpp == (x + g.xmarg + n) * g.f.bpp;
    MulMonotone(x + g.xmarg + n, g.xmarg + g.xres, g.f.bpp);
  }

  lemma RunOffset(m: nat, n: nat, bpp: nat, c: nat)
    requires m < n && c < bpp
    ensures 0 <= m * bpp + c < n * bpp
  {
    MulMonotone(m + 1, n, bpp);
    MulMonotone(0, m, bpp);
  }

  /** A row of the window ends before the framebuffer does. */
  lemma RowFits(g: Geometry, x: nat, n: nat, y: nat)
    requires g.Valid() && x + n <= g.xres && y < g.yres
    ensures 0 <= Address(g, x, y) && Address(g, x, y) + n * g.f.bpp <= g.fbLength
  {
    assert (x + g.xmarg) * g.f.bpp + n * g.f.bpp == (x + g.xmarg + n) * g.f.bpp;
    MulMonotone(x + g.xmarg + n, g.xmarg + g.xres, g.f.bpp);
    MulMonotone(0, x + g.xmarg, g.f.bpp);
    MulMonotone(0, y + g.ymarg, g.lineLength);
    MulMonotone(y + g.ymarg + 1, g.ymarg + g.yres, g.lineLength);
    assert (y + g.ymarg + 1) * g.lineLength == (y + g.ymarg) * g.lineLength + g.lineLength;
  }

  lemma NothingCopied(g: Geometry, fb: seq<byte>, img: Bitmap, x1: int, x2: int, y1: int)
    requires g.Valid() && g.IsBitmap(img)
    ensures Copied(g, fb, img, Rect(x1, x2, y1, y1 - 1)) == fb
  {
    hide Where, PictureByte;
  }

  /** paint_rect */
  method PaintRect(g: Geometry, dst: array<byte>, src: array2<Pixel>, x1: nat, y1: nat, x2: nat, y2: nat)
    requires g.Valid() && dst.Length == g.fbLength && src.Length0 == g.yres && src.Length1 == g.xres
    requires x1 <= x2 < g.xres && y1 <= y2 < g.yres
    modifies dst
    ensures dst[..] == Copied(g, old(dst[..]), Picture(src), Rect(x1, x2, y1, y2))
  {
    hide Copied, Address, EncodedByte;
    ghost var img, fb := Picture(src), dst[..];
    NothingCopied(g, fb, img, x1, x2, y1);
    var y := y1;
    while y <= y2
      invariant y1 <= y <= y2 + 1
      invariant dst[..] == Copied(g, fb, img, Rect(x1, x2, y1, y - 1))
    {
      ghost var mid := dst[..];
      RowFits(g, x1, x2 - x1 + 1, y);
      var to := Address(g, x1, y);
      CopyRun(g, dst, to, src, x1, y, x2 - x1 + 1);
      OneMoreRow(g, fb, img, x1, x2, y1, y, mid, dst[..]);
      y := y + 1;
    }
  }

  lemma NextLine(g: Geometry, y: int)
    ensures Address(g, 0, y) + g.lineLength == Address(g, 0, y + 1)
  {
    assert (y + 1 + g.ymarg) * g.lineLength == (y + g.ymarg) * g.lineLength + g.lineLength;
  }

  /** put_img: the destination pointer advances by one line for each row. */
  method PutImg(g: Geometry, dst: array<byte>, src: array2<Pixel>)
    requires g.Valid() && dst.Length == g.fbLength && src.Length0 == g.yres && src.Length1 == g.xres
    modifies dst
    ensures dst[..] == Copied(g, old(dst[..]), Picture(src), Rect(0, g.xres - 1, 0, g.yres - 1))
  {
    hide Copied, EncodedByte;
    ghost var img, fb := Picture(src), dst[..];
    NothingCopied(g, fb, img, 0, g.xres - 1, 0);
    var to := g.xmarg * g.f.bpp + g.ymarg * g.lineLength;
    assert to == Address(g, 0, 0);
    for y := 0 to g.yres
      invariant to == Address(g, 0, y)
      invariant dst[..] == Copied(g, fb, img, Rect(0, g.xres - 1, 0, y - 1))
    {
      hide Address;
      ghost var mid := dst[..];
      RowFits(g, 0, g.xres, y);
      CopyRun(g, dst, to, src, 0, y, g.xres);
      OneMoreRow(g, fb, img, 0, g.xres - 1, 0, y, mid, dst[..]);
      NextLine(g, y);
      to := to + g.lineLength;
    }
  }

  /** paint_img: the rectangles of the list are copied and the list is emptied. */
  method PaintImg(g: Geometry, blit: List<Rect>, dst: array<byte>, src: array2<Pixel>)
    requires g.Valid() && dst.Length == g.fbLength && src.Length0 == g.yres && src.Length1 == g.xres
    requires blit.Valid() && forall i :: 0 <= i < |blit.contents| ==> Inside(g.xres, g.yres, blit.contents[i])
    modifies dst, blit
    ensures dst[..] == CopiedAll(g, old(dst[..]), Picture(src), old(blit.contents))
    ensures blit.Valid() && blit.contents == [] && blit.nodes == old(blit.nodes)
  {
    hide Copied;
    ghost var img, fb, rs := Picture(src), dst[..], blit.contents;
    var i := blit.head;
    ghost var k := 0;
    while i != null
      invariant blit.Valid() && blit.contents == rs && blit.nodes == old(blit.nodes)
      invariant 0 <= k <= |blit.spine| && i == blit.At(k)
      invariant CopiedAll(g, dst[..], img, rs[k..]) == CopiedAll(g, fb, img, rs)
      decreases |rs| - k
    {
      blit.NextIs(k);
      var re := i.p;
      assert re == rs[k] && rs[k..][1..] == rs[k + 1..];
      PaintRect(g, dst, src, re.x1, re.y1, re.x2, re.y2);
      i := i.next;
      k := k + 1;
    }
    blit.Init();
  }
}
