/**
  The true-colour fade, for little-endian framebuffers of 15, 16, 24 and 32 bits per pixel
  (core/src/effects.c, fade_truecolor): what one pixel of the window shows at each of the steps.

  A pixel word is a sequence of bits, lowest bit first, so shifting and masking a component is
  cutting a piece out of it.
 */
module FadeColor {
  import opened Rects
  import Pixels

  /** FADEIN_STEPS */
  const STEPS := 64

  type byte = Pixels.byte

  type Word = seq<bool>

  // ------------------------------------------------------------------- bits of numbers

  function Pow2(n: nat): (p: nat)
    ensures p > 0
  {
    if n == 0 then 1 else 2 * Pow2(n - 1)
  }

  /** Bit i of v. */
  predicate Bit(v: nat, i: nat) {
    if i == 0 then v % 2 == 1 else Bit(v / 2, i - 1)
  }

  /** The number with the given bits. */
  function Number(s: Word): (v: nat)
    ensures v < Pow2(|s|)
  {
    if s == [] then 0 else (if s[0] then 1 else 0) + 2 * Number(s[1..])
  }

  lemma {:induction false} BitOfNumber(s: Word, i: nat)
    ensures Bit(Number(s), i) <==> i < |s| && s[i]
    decreases |s|
  {
    if s == [] {
      BitOfZero(i);
    } else if i > 0 {
      assert Number(s) / 2 == Number(s[1..]);
      BitOfNumber(s[1..], i - 1);
    }
  }

  lemma {:induction false} BitOfZero(i: nat)
    ensures !Bit(0, i)
    decreases i
  {
    if i > 0 {
      BitOfZero(i - 1);
    }
  }

  /** A number below 2^n has no bits from n on. */
  lemma {:induction false} HighBits(v: nat, n: nat, i: nat)
    requires v < Pow2(n) && i >= n
    ensures !Bit(v, i)
    decreases i
  {
    if n == 0 {
      BitOfZero(i);
    } else {
      HighBits(v / 2, n - 1, i - 1);
    }
  }

  /** The lowest n bits of a number. */
  function BitsOf(v: nat, n: nat): (s: Word)
    ensures |s| == n && forall i :: 0 <= i < n ==> s[i] == Bit(v, i)
  {
    seq(n, i requires 0 <= i < n => Bit(v, i))
  }

  lemma {:induction false} NumberOfBits(v: nat, n: nat)
    requires v < Pow2(n)
    ensures Number(BitsOf(v, n)) == v
    decreases n
  {
    if n > 0 {
      NumberOfBits(v / 2, n - 1);
      assert BitsOf(v, n)[1..] == BitsOf(v / 2, n - 1);
    }
  }

  // ------------------------------------------------------------------- bytes and words

  /** The word read from the bytes of a pixel, lowest byte first. */
  function Load(s: seq<byte>): (w: Word)
    ensures |w| == 8 * |s| && forall k :: 0 <= k < |w| ==> w[k] == Bit(s[k / 8], k % 8)
  {
    seq(8 * |s|, k requires 0 <= k < 8 * |s| => Bit(s[k / 8], k % 8))
  }

  lemma ByteSize()
    ensures Pow2(8) == 256
  {
    assert Pow2(4) == 16;
    assert Pow2(8) == 16 * Pow2(4);
  }

  function ByteAt(w: Word, j: nat): byte
    requires 8 * j + 8 <= |w|
  {
    ByteSize();
    Number(w[8 * j..8 * j + 8])
  }

  /** The bytes a word is stored as. */
  function Save(w: Word): (s: seq<byte>)
    ensures |s| == |w| / 8 && forall j :: 0 <= j < |s| ==> s[j] == ByteAt(w, j)
  {
    seq<byte>(|w| / 8, (j: nat) requires j < |w| / 8 => ByteAt(w, j))
  }

  lemma LoadSave(w: Word, n: nat)
    requires |w| == 8 * n
    ensures Load(Save(w)) == w
  {
    hide Bit, Number;
    var s := Save(w);
    forall k | 0 <= k < |w| ensures Load(s)[k] == w[k] {
      var j := k / 8;
      BitOfNumber(w[8 * j..8 * j + 8], k % 8);
    }
  }

  // -------------------------------------------------------------------- pixel formats

  /** One colour component of a pixel: its lowest bit and its width. */
  datatype Channel = Channel(off: nat, len: nat) {
    predicate Has(k: nat) {
      off <= k < off + len
    }
  }

  predicate Apart(a: Channel, b: Channel) {
    a.off + a.len <= b.off || b.off + b.len <= a.off
  }

  /** What the driver reports: bytes per pixel and the three components. */
  datatype Format = Format(bpp: nat, red: Channel, green: Channel, blue: Channel) {

    predicate Fits(c: Channel) {
      1 <= c.len <= 8 && c.off + c.len <= 8 * bpp
    }

    /** The components have at most eight bits, lie inside the pixel and do not overlap. */
    predicate Valid() {
      && 2 <= bpp <= 4 && Fits(red) && Fits(green) && Fits(blue)
      && Apart(red, green) && Apart(red, blue) && Apart(green, blue)
    }

    predicate InColour(k: nat) {
      red.Has(k) || green.Has(k) || blue.Has(k)
    }

    /** Sixteen-bit pixels, or components of a whole byte. */
    predicate FullDepth() {
      bpp == 2 || (red.len == 8 && green.len == 8 && blue.len == 8)
    }
  }

  /** The component of a word: shifted down and masked. */
  function Field(w: Word, c: Channel): (v: nat)
    requires c.off + c.len <= |w|
    ensures v < Pow2(c.len)
  {
    Number(w[c.off..c.off + c.len])
  }

  /** Whether value v, shifted up by off, sets bit k. */
  predicate Sets(v: nat, off: nat, k: nat) {
    k >= off && Bit(v, k - off)
  }

  /** Three values shifted into their places and joined by a bitwise or, cut to the pixel. */
  function Pack(f: Format, r: nat, g: nat, b: nat): (w: Word)
    ensures |w| == 8 * f.bpp
    ensures forall k :: 0 <= k < |w| ==> w[k] == (Sets(r, f.red.off, k) || Sets(g, f.green.off, k) || Sets(b, f.blue.off, k))
  {
    seq(8 * f.bpp, k requires 0 <= k < 8 * f.bpp => Sets(r, f.red.off, k) || Sets(g, f.green.off, k) || Sets(b, f.blue.off, k))
  }

  /** The colour bits of a word; all others cleared. */
  function ColourOnly(f: Format, w: Word): (m: Word)
    ensures |m| == |w| && forall k :: 0 <= k < |w| ==> m[k] == (w[k] && f.InColour(k))
  {
    seq(|w|, k requires 0 <= k < |w| => w[k] && f.InColour(k))
  }

  lemma SetsInside(v: nat, c: Channel, k: nat)
    requires v < Pow2(c.len) && Sets(v, c.off, k)
    ensures c.Has(k)
  {
    if k >= c.off + c.len {
      HighBits(v, c.len, k - c.off);
    }
  }

  lemma FieldSets(w: Word, c: Channel, k: nat)
    requires c.off + c.len <= |w| && k < |w|
    ensures Sets(Field(w, c), c.off, k) <==> c.Has(k) && w[k]
  {
    hide Bit, Number;
    if k >= c.off {
      BitOfNumber(w[c.off..c.off + c.len], k - c.off);
    }
  }

  /** Packing the components of a word keeps its colour bits and clears the rest. */
  lemma PackOfFields(f: Format, w: Word)
    requires f.Valid() && |w| == 8 * f.bpp
    ensures Pack(f, Field(w, f.red), Field(w, f.green), Field(w, f.blue)) == ColourOnly(f, w)
  {
    hide Field, Sets;
    var p := Pack(f, Field(w, f.red), Field(w, f.green), Field(w, f.blue));
    forall k | 0 <= k < |w| ensures p[k] == ColourOnly(f, w)[k] {
      FieldSets(w, f.red, k);
      FieldSets(w, f.green, k);
      FieldSets(w, f.blue, k);
    }
  }

  lemma FieldFromBits(w: Word, c: Channel, v: nat)
    requires c.off + c.len <= |w| && v < Pow2(c.len)
    requires forall k: nat :: c.Has(k) && k < |w| ==> w[k] == Sets(v, c.off, k)
    ensures Field(w, c) == v
  {
    hide Bit, Number;
    NumberOfBits(v, c.len);
    assert w[c.off..c.off + c.len] == BitsOf(v, c.len) by {
      forall i | 0 <= i < c.len ensures w[c.off + i] == Bit(v, i) {
        assert c.Has(c.off + i);
      }
    }
  }

  /** A packed word has the packed components. */
  lemma FieldsOfPack(f: Format, r: nat, g: nat, b: nat)
    requires f.Valid() && r < Pow2(f.red.len) && g < Pow2(f.green.len) && b < Pow2(f.blue.len)
    ensures var w := Pack(f, r, g, b); Field(w, f.red) == r && Field(w, f.green) == g && Field(w, f.blue) == b
  {
    hide Field, Sets, Pow2;
    var w := Pack(f, r, g, b);
    forall k: nat | k < |w|
      ensures Sets(r, f.red.off, k) ==> f.red.Has(k)
      ensures Sets(g, f.green.off, k) ==> f.green.Has(k)
      ensures Sets(b, f.blue.off, k) ==> f.blue.Has(k)
    {
      if Sets(r, f.red.off, k) { SetsInside(r, f.red, k); }
      if Sets(g, f.green.off, k) { SetsInside(g, f.green, k); }
      if Sets(b, f.blue.off, k) { SetsInside(b, f.blue, k); }
    }
    FieldFromBits(w, f.red, r);
    FieldFromBits(w, f.green, g);
    FieldFromBits(w, f.blue, b);
  }

  // --------------------------------------------------------------------- the steps

  /** A decoded pixel: one byte for each component, its bits at the top. */
  datatype Rgb = Rgb(r: byte, g: byte, b: byte)

  lemma TopBits(v: nat, len: nat)
    requires 1 <= len <= 8 && v < Pow2(len)
    ensures v * Pow2(8 - len) < 256 && v * Pow2(8 - len) / Pow2(8 - len) == v
  {
    SplitByte(len);
    MulMonotone(v + 1, Pow2(len), Pow2(8 - len));
    DivExact(v, Pow2(8 - len));
  }

  lemma SplitByte(len: nat)
    requires 1 <= len <= 8
    ensures Pow2(len) * Pow2(8 - len) == 256
  {
    ByteSize();
    PowerSum(len, 8 - len);
  }

  lemma {:induction false} PowerSum(m: nat, n: nat)
    ensures Pow2(m) * Pow2(n) == Pow2(m + n)
    decreases m
  {
    if m > 0 {
      PowerSum(m - 1, n);
      assert Pow2(m) * Pow2(n) == 2 * (Pow2(m - 1) * Pow2(n));
    }
  }

  /** A component shifted up to a full byte. */
  function Expand(w: Word, c: Channel): byte
    requires 1 <= c.len <= 8 && c.off + c.len <= |w|
  {
    TopBits(Field(w, c), c.len);
    Field(w, c) * Pow2(8 - c.len)
  }

  function Unpack(f: Format, s: seq<byte>): Rgb
    requires f.Valid() && |s| == f.bpp
  {
    var w := Load(s);
    Rgb(Expand(w, f.red), Expand(w, f.green), Expand(w, f.blue))
  }

  /** The colour look-up table. */
  function Clut(out: bool, i: byte, step: nat): byte
    requires step < STEPS
  {
    MulMonotone(STEPS - 1 - step, STEPS, i);
    MulMonotone(step + 1, STEPS, i);
    if out then (STEPS - 1 - step) * i / STEPS else (step + 1) * i / STEPS
  }

  /** Only sixteen-bit pixels shift the components back down. */
  function Level(f: Format, v: byte, c: Channel): (l: byte)
    requires 1 <= c.len <= 8
  {
    if f.bpp == 2 then
      DivMonotone(v, v * Pow2(8 - c.len), Pow2(8 - c.len));
      v / Pow2(8 - c.len)
    else v
  }

  function PackRgb(f: Format, p: Rgb): (w: Word)
    requires f.Valid()
    ensures |w| == 8 * f.bpp
  {
    Pack(f, Level(f, p.r, f.red), Level(f, p.g, f.green), Level(f, p.b, f.blue))
  }

  function AtStep(out: bool, p: Rgb, step: nat): Rgb
    requires step < STEPS
  {
    Rgb(Clut(out, p.r, step), Clut(out, p.g, step), Clut(out, p.b, step))
  }

  /** The bytes that one step writes for a pixel of the picture. */
  function StepPixel(f: Format, out: bool, s: seq<byte>, step: nat): (t: seq<byte>)
    requires f.Valid() && |s| == f.bpp && step < STEPS
    ensures |t| == f.bpp
  {
    Save(PackRgb(f, AtStep(out, Unpack(f, s), step)))
  }

  // -------------------------------------------------------------------- the results

  lemma LastClut(v: byte)
    ensures Clut(false, v, STEPS - 1) == v && Clut(true, v, STEPS - 1) == 0
  {
    DivExact(v, STEPS);
  }

  lemma LevelOfExpanded(f: Format, w: Word, c: Channel)
    requires f.Fits(c) && |w| == 8 * f.bpp
    ensures Level(f, Expand(w, c), c) == if f.bpp == 2 then Field(w, c) else Field(w, c) * Pow2(8 - c.len)
    ensures f.bpp == 2 || c.len == 8 ==> Level(f, Expand(w, c), c) == Field(w, c)
  {
    hide Field;
    TopBits(Field(w, c), c.len);
  }

  /** After its last step a fade-in has put on the screen exactly the colour bits of the picture,
      the other bits cleared. */
  lemma FadeInEnds(f: Format, s: seq<byte>)
    requires f.Valid() && f.FullDepth() && |s| == f.bpp
    ensures StepPixel(f, false, s, STEPS - 1) == Save(ColourOnly(f, Load(s)))
  {
    hide Field, Expand, Level, Clut, Pack, ColourOnly, Save;
    var w, p := Load(s), Unpack(f, s);
    LastClut(p.r);
    LastClut(p.g);
    LastClut(p.b);
    LevelOfExpanded(f, w, f.red);
    LevelOfExpanded(f, w, f.green);
    LevelOfExpanded(f, w, f.blue);
    PackOfFields(f, w);
  }

  /** The word with one bit set. */
  function OneBit(n: nat, o: nat): (w: Word)
    ensures |w| == n && forall k :: 0 <= k < n ==> w[k] == (k == o)
  {
    seq(n, k => k == o)
  }

  lemma {:induction false} EvenPower(n: nat)
    requires n > 0
    ensures !Bit(Pow2(n), 0)
  {
  }

  lemma FieldOfOneBit(f: Format, o: nat, c: Channel)
    requires f.Fits(c) && o < 8 * f.bpp
    ensures !c.Has(o) ==> Field(OneBit(8 * f.bpp, o), c) == 0
    ensures c.off == o ==> Field(OneBit(8 * f.bpp, o), c) == 1
  {
    hide Field;
    var w := OneBit(8 * f.bpp, o);
    if !c.Has(o) {
      forall k: nat | c.Has(k) && k < |w| ensures w[k] == Sets(0, c.off, k) {
        BitOfZero(k - c.off);
      }
      FieldFromBits(w, c, 0);
    }
    if c.off == o {
      forall k: nat | c.Has(k) && k < |w| ensures w[k] == Sets(1, c.off, k) {
        BitOfOne(k - c.off);
      }
      assert Pow2(c.len) > 1;
      FieldFromBits(w, c, 1);
    }
  }

  lemma BitOfOne(i: nat)
    ensures Bit(1, i) <==> i == 0
  {
    if i > 0 {
      BitOfZero(i - 1);
    }
  }

  /** A narrow component of a 24- or 32-bit pixel loses its lowest bit at the end of a fade. */
  lemma NarrowDiffers(f: Format, c: Channel, s: seq<byte>)
    requires f.Valid() && f.bpp > 2 && (c == f.red || c == f.green || c == f.blue) && c.len < 8
    requires |s| == f.bpp && Load(s) == OneBit(8 * f.bpp, c.off)
    ensures StepPixel(f, false, s, STEPS - 1) != Save(ColourOnly(f, Load(s)))
  {
    hide Field, Expand, Clut, Bit, Save, Pow2;
    var w, p := Load(s), Unpack(f, s);
    LastClut(p.r);
    LastClut(p.g);
    LastClut(p.b);
    OtherIsDark(f, w, c, f.red);
    OtherIsDark(f, w, c, f.green);
    OtherIsDark(f, w, c, f.blue);
    var t := PackRgb(f, AtStep(false, p, STEPS - 1));
    assert !t[c.off] && ColourOnly(f, w)[c.off];
    LoadSave(t, f.bpp);
    LoadSave(ColourOnly(f, w), f.bpp);
  }

  /** In a word with only the lowest bit of component c, no component packs that bit. */
  lemma OtherIsDark(f: Format, w: Word, c: Channel, d: Channel)
    requires f.Valid() && f.bpp > 2 && c.len < 8 && f.Fits(c) && f.Fits(d) && (d == c || Apart(d, c))
    requires w == OneBit(8 * f.bpp, c.off)
    ensures !Sets(Level(f, Expand(w, d), d), d.off, c.off)
  {
    hide Field, Bit;
    FieldOfOneBit(f, c.off, d);
    LevelOfExpanded(f, w, d);
    if d == c {
      EvenPower(8 - c.len);
    } else {
      BitOfZero(if c.off >= d.off then c.off - d.off else 0);
    }
  }

  /** A fade-in ends with the colour bits of the picture, for every pixel, if and only if the
      pixels have sixteen bits or every component has eight. */
  lemma FadeInExactIff(f: Format)
    requires f.Valid()
    ensures f.FullDepth() <==>
            forall s: seq<byte> | |s| == f.bpp :: StepPixel(f, false, s, STEPS - 1) == Save(ColourOnly(f, Load(s)))
  {
    hide StepPixel, Save, ColourOnly, Load;
    if f.FullDepth() {
      forall s: seq<byte> | |s| == f.bpp ensures StepPixel(f, false, s, STEPS - 1) == Save(ColourOnly(f, Load(s))) {
        FadeInEnds(f, s);
      }
    } else {
      var c := if f.red.len < 8 then f.red else if f.green.len < 8 then f.green else f.blue;
      var w := OneBit(8 * f.bpp, c.off);
      LoadSave(w, f.bpp);
      NarrowDiffers(f, c, Save(w));
    }
  }

  lemma NothingSet(f: Format)
    requires f.Valid()
    ensures Save(Pack(f, 0, 0, 0)) == seq<byte>(f.bpp, _ => 0)
  {
    hide Bit, Number;
    var w := Pack(f, 0, 0, 0);
    forall k | 0 <= k < |w| ensures !w[k] {
      if k >= f.red.off { BitOfZero(k - f.red.off); }
      if k >= f.green.off { BitOfZero(k - f.green.off); }
      if k >= f.blue.off { BitOfZero(k - f.blue.off); }
    }
    forall j | 0 <= j < f.bpp ensures ByteAt(w, j) == 0 {
      NumberOfNone(w[8 * j..8 * j + 8]);
    }
  }

  lemma {:induction false} NumberOfNone(w: Word)
    requires forall k :: 0 <= k < |w| ==> !w[k]
    ensures Number(w) == 0
    decreases |w|
  {
    if w != [] {
      NumberOfNone(w[1..]);
    }
  }

  /** A fade-out ends with every byte of the pixel zero, whatever the format. */
  lemma FadeOutEnds(f: Format, s: seq<byte>)
    requires f.Valid() && |s| == f.bpp
    ensures StepPixel(f, true, s, STEPS - 1) == seq<byte>(f.bpp, _ => 0)
  {
    hide Expand, Clut, Pack, Save, Pow2;
    var p := Unpack(f, s);
    LastClut(p.r);
    LastClut(p.g);
    LastClut(p.b);
    assert 0 / Pow2(8 - f.red.len) == 0 && 0 / Pow2(8 - f.green.len) == 0 && 0 / Pow2(8 - f.blue.len) == 0;
    NothingSet(f);
  }

  lemma ClutMoves(v: byte, i: nat, j: nat)
    requires i <= j < STEPS
    ensures Clut(false, v, i) <= Clut(false, v, j) <= v
    ensures Clut(true, v, j) <= Clut(true, v, i) <= v
  {
    MulMonotone(i + 1, j + 1, v);
    MulMonotone(j + 1, STEPS, v);
    MulMonotone(STEPS - 1 - j, STEPS - 1 - i, v);
    MulMonotone(STEPS - 1 - i, STEPS, v);
    MulMonotone(0, i + 1, v);
    MulMonotone(0, STEPS - 1 - j, v);
    DivMonotone((i + 1) * v, (j + 1) * v, STEPS);
    DivMonotone((j + 1) * v, STEPS * v, STEPS);
    DivMonotone((STEPS - 1 - j) * v, (STEPS - 1 - i) * v, STEPS);
    DivMonotone((STEPS - 1 - i) * v, STEPS * v, STEPS);
    DivExact(v, STEPS);
  }

  lemma QuotientBelow(v: nat, a: nat, b: nat)
    requires b > 0 && v < a * b
    ensures v / b < a
  {
    if v / b >= a {
      MulMonotone(a, v / b, b);
    }
  }

  lemma LevelFits(f: Format, v: byte, c: Channel)
    requires f.FullDepth() && 1 <= c.len <= 8 && (f.bpp == 2 || c.len == 8)
    ensures Level(f, v, c) < Pow2(c.len)
  {
    SplitByte(c.len);
    ByteSize();
    QuotientBelow(v, Pow2(c.len), Pow2(8 - c.len));
  }

  /** What is on the screen after a step: of each component of the picture, the share the look-up
      table gives, in the precision of the pixel. */
  lemma ShownAfterStep(f: Format, out: bool, s: seq<byte>, step: nat)
    requires f.Valid() && f.FullDepth() && |s| == f.bpp && step < STEPS
    ensures var w, p := Load(StepPixel(f, out, s, step)), Unpack(f, s);
            && Field(w, f.red) == Level(f, Clut(out, p.r, step), f.red)
            && Field(w, f.green) == Level(f, Clut(out, p.g, step), f.green)
            && Field(w, f.blue) == Level(f, Clut(out, p.b, step), f.blue)
  {
    hide Expand, Clut, Field, Level, Load, Save, Pack;
    var p := AtStep(out, Unpack(f, s), step);
    LoadSave(PackRgb(f, p), f.bpp);
    LevelFits(f, p.r, f.red);
    LevelFits(f, p.g, f.green);
    LevelFits(f, p.b, f.blue);
    FieldsOfPack(f, Level(f, p.r, f.red), Level(f, p.g, f.green), Level(f, p.b, f.blue));
  }

  /** The table holds, for the k-th of 64 steps, k sixty-fourths of each value in a fade-in and
      what is left of 64 in a fade-out. */
  lemma ClutIsShare(out: bool, i: byte, step: nat)
    requires step < 64
    ensures IsQuotient(Clut(out, i, step), (if out then 63 - step else step + 1) * i, 64)
  {
    var k := if out then 63 - step else step + 1;
    MulMonotone(0, k, i);
    DivIs(k * i, 64);
  }

  /** Scaling up, taking the share and scaling down again gives the share. */
  lemma NestedQuotient(n: nat, m: nat, q: nat, l: nat)
    requires m > 0 && IsQuotient(q, n * m, 64) && IsQuotient(l, q, m)
    ensures IsQuotient(l, n, 64)
  {
    assert n * m >= 0 by { MulMonotone(0, n, m); }
    assert l * m <= q < l * m + m && q * 64 <= n * m < q * 64 + 64;
    assert (l + 1) * m == l * m + m && (n + 1) * m == n * m + m;
    assert (l * 64) * m == (l * m) * 64 && (l * 64 + 64) * m == (l * m + m) * 64;
    if n < l * 64 {
      MulMonotone(n + 1, l * 64, m);
    } else if n >= l * 64 + 64 {
      MulMonotone(l * 64 + 64, n, m);
    }
  }

  lemma ProductMoves(k: int, x: int, m: int)
    ensures k * (x * m) == (k * x) * m
  {
  }

  /** The share of an expanded component, shifted down again. */
  lemma ShareOfExpanded(k: nat, x: nat, m: nat, v: nat, q: nat)
    requires m > 0 && v == x * m && IsQuotient(q, k * v, 64)
    ensures k * x >= 0 && IsQuotient(q / m, k * x, 64)
  {
    hide IsQuotient;
    MulMonotone(0, k, x);
    ProductMoves(k, x, m);
    DivIs(q, m);
    DivMonotone(0, q, m);
    NestedQuotient(k * x, m, q, q / m);
  }

  lemma LevelIsShare(f: Format, out: bool, w: Word, c: Channel, step: nat)
    requires f.Fits(c) && f.FullDepth() && (f.bpp == 2 || c.len == 8) && |w| == 8 * f.bpp && step < 64
    ensures IsQuotient(Level(f, Clut(out, Expand(w, c), step), c), (if out then 63 - step else step + 1) * Field(w, c), 64)
  {
    hide Clut, Field, Pow2, IsQuotient;
    ClutIsShare(out, Expand(w, c), step);
    NoShift();
    ShareOfExpanded(if out then 63 - step else step + 1, Field(w, c), Pow2(8 - c.len), Expand(w, c), Clut(out, Expand(w, c), step));
  }

  lemma NoShift()
    ensures Pow2(0) == 1
  {
  }

  /** After the k-th of 64 steps every component on the screen is k sixty-fourths of that of the
      picture, rounded down in the precision of the pixel; a fade-out shows what is left of 64. */
  lemma ShownIsShare(f: Format, out: bool, s: seq<byte>, step: nat)
    requires f.Valid() && f.FullDepth() && |s| == f.bpp && step < 64
    ensures var w, u, k := Load(StepPixel(f, out, s, step)), Load(s), if out then 63 - step else step + 1;
            && IsQuotient(Field(w, f.red), k * Field(u, f.red), 64)
            && IsQuotient(Field(w, f.green), k * Field(u, f.green), 64)
            && IsQuotient(Field(w, f.blue), k * Field(u, f.blue), 64)
  {
    hide Expand, Clut, Field, Level, Load, StepPixel, IsQuotient;
    ShownAfterStep(f, out, s, step);
    LevelIsShare(f, out, Load(s), f.red, step);
    LevelIsShare(f, out, Load(s), f.green, step);
    LevelIsShare(f, out, Load(s), f.blue, step);
  }

  lemma LevelMonotone(f: Format, u: byte, v: byte, c: Channel)
    requires u <= v && 1 <= c.len <= 8
    ensures Level(f, u, c) <= Level(f, v, c)
  {
    if f.bpp == 2 {
      DivMonotone(u, v, Pow2(8 - c.len));
    }
  }

  /** The order of two values in the direction of a fade. */
  predicate Ordered(out: bool, u: int, v: int) {
    if out then u >= v else u <= v
  }

  /** Every component on the screen moves in one direction over the steps: up in a fade-in,
      down in a fade-out. */
  lemma ComponentsMoveOneWay(f: Format, out: bool, s: seq<byte>, i: nat, j: nat)
    requires f.Valid() && f.FullDepth() && |s| == f.bpp && i <= j < STEPS
    ensures var u, v := Load(StepPixel(f, out, s, i)), Load(StepPixel(f, out, s, j));
            && Ordered(out, Field(u, f.red), Field(v, f.red))
            && Ordered(out, Field(u, f.green), Field(v, f.green))
            && Ordered(out, Field(u, f.blue), Field(v, f.blue))
  {
    hide Expand, Clut, Field, Level, Load, StepPixel;
    var p := Unpack(f, s);
    ShownAfterStep(f, out, s, i);
    ShownAfterStep(f, out, s, j);
    LevelsOrdered(f, out, p.r, f.red, i, j);
    LevelsOrdered(f, out, p.g, f.green, i, j);
    LevelsOrdered(f, out, p.b, f.blue, i, j);
  }

  lemma LevelsOrdered(f: Format, out: bool, v: byte, c: Channel, i: nat, j: nat)
    requires i <= j < STEPS && 1 <= c.len <= 8
    ensures Ordered(out, Level(f, Clut(out, v, i), c), Level(f, Clut(out, v, j), c))
  {
    hide Clut, Level;
    ClutMoves(v, i, j);
    if out {
      LevelMonotone(f, Clut(out, v, j), Clut(out, v, i), c);
    } else {
      LevelMonotone(f, Clut(out, v, i), Clut(out, v, j), c);
    }
  }
}
