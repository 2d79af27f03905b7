/**
  Writing one pixel (core/src/render.c, put_pixel) on little-endian framebuffers of 24 or
  32 bits per pixel with 8-bit colour components.

  Such a pixel can be written in two ways: byte by byte at the offsets worked out by
  fb_get_settings (core/src/common.c), or by unpacking the whole word, blending and packing it
  again.  The compositor uses the decoded form `Pixel`; `Encode` is its memory image.
 */
module Pixels {
  import opened Rects

  type byte = x: int | 0 <= x < 256

  /** A decoded pixel; `pad` is the fourth byte of a 32-bit pixel. */
  datatype Pixel = Pixel(r: byte, g: byte, b: byte, pad: byte)

  // ------------------------------------------------------------------ blending

  lemma BlendBounds(s: int, c: int, a: int)
    requires 0 <= a <= 255
    ensures s <= c ==> 255 * s <= s * (255 - a) + c * a <= 255 * c
    ensures c <= s ==> 255 * c <= s * (255 - a) + c * a <= 255 * s
  {
    assert s * (255 - a) + c * a == 255 * s + (c - s) * a;
    if s <= c {
      MulMonotone(0, a, c - s);
      MulMonotone(a, 255, c - s);
    }
    if c <= s {
      MulMonotone(0, a, s - c);
      MulMonotone(a, 255, s - c);
      assert (c - s) * a == -(a * (s - c));
    }
  }

  /** One component of the blend: alpha a of the new value c over the old value s.  It stays
      between the two, and the shortcuts for alpha 0 and 255 are what the formula gives. */
  function Blend(s: byte, c: byte, a: byte): (v: byte)
    ensures Min(s, c) <= v <= Max(s, c)
    ensures a == 0 ==> v == s
    ensures a == 255 ==> v == c
  {
    BlendBounds(s, c, a);
    (s * (255 - a) + c * a) / 255
  }

  /** v lies a 255ths of the way from s to c, rounded down. */
  predicate IsBlend(v: int, s: int, c: int, a: int) {
    255 * v <= s * (255 - a) + c * a < 255 * (v + 1)
  }

  /** The blended component is exactly the share that alpha is of 255. */
  lemma BlendIsShare(s: byte, c: byte, a: byte)
    ensures IsBlend(Blend(s, c, a), s, c, a)
  {
  }

  /** More alpha brings a component nearer to the new value. */
  lemma BlendForward(s: byte, c: byte, a: byte, a': byte)
    requires a <= a'
    ensures s <= c ==> Blend(s, c, a) <= Blend(s, c, a')
    ensures s >= c ==> Blend(s, c, a) >= Blend(s, c, a')
  {
    BlendBounds(s, c, a);
    BlendBounds(s, c, a');
    assert s * (255 - a) + c * a == 255 * s + (c - s) * a;
    assert s * (255 - a') + c * a' == 255 * s + (c - s) * a';
    if s <= c {
      MulMonotone(a, a', c - s);
      DivMonotone(s * (255 - a) + c * a, s * (255 - a') + c * a', 255);
    }
    if s >= c {
      MulMonotone(a, a', s - c);
      assert (c - s) * a == -(a * (s - c)) && (c - s) * a' == -(a' * (s - c));
      DivMonotone(s * (255 - a') + c * a', s * (255 - a) + c * a, 255);
    }
  }

  /** put_pixel on a decoded pixel drawn in place. */
  function Over(p: Pixel, a: byte, r: byte, g: byte, b: byte): Pixel {
    p.(r := Blend(p.r, r, a), g := Blend(p.g, g, a), b := Blend(p.b, b, a))
  }

  /** q is what alpha a of a colour makes of pixel p. */
  predicate Blended(p: Pixel, a: byte, r: byte, g: byte, b: byte, q: Pixel) {
    IsBlend(q.r, p.r, r, a) && IsBlend(q.g, p.g, g, a) && IsBlend(q.b, p.b, b, a) && q.pad == p.pad
  }

  lemma OverIsBlended(p: Pixel, a: byte, r: byte, g: byte, b: byte)
    ensures Blended(p, a, r, g, b, Over(p, a, r, g, b))
  {
    hide Blend, IsBlend;
    BlendIsShare(p.r, r, a);
    BlendIsShare(p.g, g, a);
    BlendIsShare(p.b, b, a);
  }

  // ------------------------------------------------------------- memory layout

  /** Bytes per pixel and the byte indices fbd.ro, fbd.go and fbd.bo. */
  datatype Layout = Layout(bpp: nat, ro: nat, go: nat, bo: nat) {
    predicate Valid() {
      && (bpp == 3 || bpp == 4)
      && ro < bpp && go < bpp && bo < bpp
      && ro != go && ro != bo && go != bo
    }
  }

  function EncodedByte(f: Layout, p: Pixel, k: nat): byte {
    if k == f.ro then p.r else if k == f.go then p.g else if k == f.bo then p.b else p.pad
  }

  function Encode(f: Layout, p: Pixel): (bytes: seq<byte>)
    ensures |bytes| == f.bpp
  {
    seq<byte>(f.bpp, (k: nat) => EncodedByte(f, p, k))
  }

  function Decode(f: Layout, bytes: seq<byte>): Pixel
    requires f.Valid() && |bytes| == f.bpp
  {
    var rest := 6 - f.ro - f.go - f.bo;
    Pixel(bytes[f.ro], bytes[f.go], bytes[f.bo], if rest < f.bpp then bytes[rest] else 0)
  }

  /** Encoding restores every byte: the compositor loses nothing by working on Pixel. */
  lemma EncodeDecode(f: Layout, bytes: seq<byte>)
    requires f.Valid() && |bytes| == f.bpp
    ensures Encode(f, Decode(f, bytes)) == bytes
  {
    var p := Decode(f, bytes);
    forall k | 0 <= k < f.bpp ensures Encode(f, p)[k] == bytes[k] {}
  }

  /** Where the components of a pixel are in memory. */
  lemma EncodedComponents(f: Layout, p: Pixel)
    requires f.Valid()
    ensures Encode(f, p)[f.ro] == p.r && Encode(f, p)[f.go] == p.g && Encode(f, p)[f.bo] == p.b
    ensures forall k :: 0 <= k < f.bpp && k != f.ro && k != f.go && k != f.bo ==> Encode(f, p)[k] == p.pad
  {
  }

  /** The colour bytes of `out` are those of s under alpha a of a colour. */
  predicate BlendedBytes(f: Layout, a: byte, r: byte, g: byte, b: byte, s: seq<byte>, out: seq<byte>)
    requires f.Valid() && |s| == |out| == f.bpp
  {
    IsBlend(out[f.ro], s[f.ro], r, a) && IsBlend(out[f.go], s[f.go], g, a) && IsBlend(out[f.bo], s[f.bo], b, a)
  }

  /** All bytes but the colour bytes are as in d. */
  predicate SamePadding(f: Layout, d: seq<byte>, out: seq<byte>)
    requires f.Valid() && |d| == |out| == f.bpp
  {
    forall k :: 0 <= k < f.bpp && k != f.ro && k != f.go && k != f.bo ==> out[k] == d[k]
  }

  // ------------------------------------------------------- the byte-offset path

  /** Three bytes of d are replaced, the others stay. */
  function Fast(f: Layout, a: byte, r: byte, g: byte, b: byte, s: seq<byte>, d: seq<byte>): (out: seq<byte>)
    requires f.Valid() && |s| == |d| == f.bpp
    ensures |out| == f.bpp
  {
    if a == 0 then d[f.ro := s[f.ro]][f.go := s[f.go]][f.bo := s[f.bo]]
    else if a == 255 then d[f.ro := r][f.go := g][f.bo := b]
    else d[f.ro := Blend(s[f.ro], r, a)][f.go := Blend(s[f.go], g, a)][f.bo := Blend(s[f.bo], b, a)]
  }

  lemma FastIsBlended(f: Layout, a: byte, r: byte, g: byte, b: byte, s: seq<byte>, d: seq<byte>)
    requires f.Valid() && |s| == |d| == f.bpp
    ensures BlendedBytes(f, a, r, g, b, s, Fast(f, a, r, g, b, s, d)) && SamePadding(f, d, Fast(f, a, r, g, b, s, d))
  {
    hide Blend, IsBlend;
    BlendIsShare(s[f.ro], r, a);
    BlendIsShare(s[f.go], g, a);
    BlendIsShare(s[f.bo], b, a);
  }

  /** The byte-offset path draws on the memory image exactly what Over draws on the pixel. */
  lemma FastIsOver(f: Layout, p: Pixel, a: byte, r: byte, g: byte, b: byte)
    requires f.Valid()
    ensures Fast(f, a, r, g, b, Encode(f, p), Encode(f, p)) == Encode(f, Over(p, a, r, g, b))
  {
    hide Blend;
    var u, v := Fast(f, a, r, g, b, Encode(f, p), Encode(f, p)), Encode(f, Over(p, a, r, g, b));
    forall k | 0 <= k < f.bpp ensures u[k] == v[k] {}
  }

  // ----------------------------------------------------------- the general path

  /** The bit offsets of the components, as the framebuffer driver reports them. */
  datatype BitOffsets = BitOffsets(red: bv6, green: bv6, blue: bv6) {

    /** The fields lie inside the pixel and do not overlap. */
    predicate Valid(bpp: nat) {
      && (bpp == 3 || bpp == 4)
      && red <= 24 && green <= 24 && blue <= 24
      && (bpp == 3 ==> red <= 16 && green <= 16 && blue <= 16)
      && Apart(red, green) && Apart(red, blue) && Apart(green, blue)
    }

    predicate Aligned() {
      red & 7 == 0 && green & 7 == 0 && blue & 7 == 0
    }
  }

  predicate Apart(m: bv6, n: bv6)
    requires m <= 24 && n <= 24
  {
    m + 8 <= n || n + 8 <= m
  }

  /** A bit offset shifted right by three. */
  function ByteIndex(o: bv6): nat {
    if o < 8 then 0 else if o < 16 then 1 else if o < 24 then 2 else 3
  }

  /** fb_get_settings: the byte indices for given bit offsets. */
  function LayoutOf(bpp: nat, v: BitOffsets): (f: Layout)
    requires v.Valid(bpp)
    ensures f.Valid() && f.bpp == bpp
  {
    Layout(bpp, ByteIndex(v.red), ByteIndex(v.green), ByteIndex(v.blue))
  }

  function Join(b0: bv8, b1: bv8, b2: bv8, b3: bv8): bv32 {
    (b0 as bv32) | ((b1 as bv32) << 8) | ((b2 as bv32) << 16) | ((b3 as bv32) << 24)
  }

  function Field(w: bv32, o: bv6): bv8
    requires o <= 24
  {
    ((w >> o) & 0xff) as bv8
  }

  function Pack(r: bv8, g: bv8, b: bv8, i: bv6, j: bv6, k: bv6): bv32
    requires i <= 24 && j <= 24 && k <= 24
  {
    ((r as bv32) << i) | ((g as bv32) << j) | ((b as bv32) << k)
  }

  /** The word read from memory; a 24-bit pixel is masked to its three bytes. */
  function Word(s: seq<byte>): bv32
    requires |s| == 3 || |s| == 4
  {
    Join(s[0] as bv8, s[1] as bv8, s[2] as bv8, if |s| == 4 then s[3] as bv8 else 0)
  }

  function Comp(w: bv32, o: bv6): byte
    requires o <= 24
  {
    Field(w, o) as int
  }

  /** The bytes a word is stored as. */
  function Store(bpp: nat, w: bv32): (out: seq<byte>)
    requires bpp == 3 || bpp == 4
    ensures |out| == bpp
  {
    [Comp(w, 0), Comp(w, 8), Comp(w, 16)] + if bpp == 4 then [Comp(w, 24)] else []
  }

  function PackBytes(v: BitOffsets, r: byte, g: byte, b: byte): bv32
    requires v.red <= 24 && v.green <= 24 && v.blue <= 24
  {
    Pack(r as bv8, g as bv8, b as bv8, v.red, v.green, v.blue)
  }

  /** Unpack the word, blend, pack and store it. */
  function General(bpp: nat, v: BitOffsets, a: byte, r: byte, g: byte, b: byte, s: seq<byte>): (out: seq<byte>)
    requires v.Valid(bpp) && |s| == bpp
    ensures |out| == bpp
  {
    var w := Word(s);
    var tr := if a != 255 then Blend(Comp(w, v.red), r, a) else r;
    var tg := if a != 255 then Blend(Comp(w, v.green), g, a) else g;
    var tb := if a != 255 then Blend(Comp(w, v.blue), b, a) else b;
    Store(bpp, PackBytes(v, tr, tg, tb))
  }

  lemma FieldOfJoin(b0: bv8, b1: bv8, b2: bv8, b3: bv8, o: bv6)
    requires o <= 24 && o & 7 == 0
    ensures Field(Join(b0, b1, b2, b3), o) == if o == 0 then b0 else if o == 8 then b1 else if o == 16 then b2 else b3
  {
  }

  lemma FieldOfPack(r: bv8, g: bv8, b: bv8, i: bv6, j: bv6, k: bv6)
    requires i == 0 || i == 8 || i == 16 || i == 24
    requires j == 0 || j == 8 || j == 16 || j == 24
    requires k == 0 || k == 8 || k == 16 || k == 24
    requires i != j && i != k && j != k
    ensures Field(Pack(r, g, b, i, j, k), i) == r
    ensures Field(Pack(r, g, b, i, j, k), j) == g
    ensures Field(Pack(r, g, b, i, j, k), k) == b
  {
  }

  lemma Slot(o: bv6)
    requires o <= 24 && o & 7 == 0
    ensures o == 0 || o == 8 || o == 16 || o == 24
  {
  }

  lemma SameByte(b: byte)
    ensures (b as bv8) as int == b
  {
    assert b % 256 == b;
  }

  lemma CompOfWord(s: seq<byte>, o: bv6)
    requires |s| == 3 || |s| == 4
    requires o <= 24 && o & 7 == 0 && ByteIndex(o) < |s|
    ensures Comp(Word(s), o) == s[ByteIndex(o)]
  {
    hide Join, Field;
    Slot(o);
    FieldOfJoin(s[0] as bv8, s[1] as bv8, s[2] as bv8, if |s| == 4 then s[3] as bv8 else 0, o);
    SameByte(s[ByteIndex(o)]);
  }

  lemma CompOfPack(v: BitOffsets, bpp: nat, r: byte, g: byte, b: byte)
    requires v.Valid(bpp) && v.Aligned()
    ensures Comp(PackBytes(v, r, g, b), v.red) == r
    ensures Comp(PackBytes(v, r, g, b), v.green) == g
    ensures Comp(PackBytes(v, r, g, b), v.blue) == b
  {
    hide Field, Pack;
    Slot(v.red);
    Slot(v.green);
    Slot(v.blue);
    FieldOfPack(r as bv8, g as bv8, b as bv8, v.red, v.green, v.blue);
    SameByte(r);
    SameByte(g);
    SameByte(b);
  }

  lemma StoredByte(bpp: nat, w: bv32, o: bv6)
    requires (bpp == 3 || bpp == 4) && o <= 24 && ByteIndex(o) < bpp
    ensures Store(bpp, w)[ByteIndex(o)] == Comp(w, o & 0x38)
    ensures o & 7 == 0 ==> o & 0x38 == o
  {
    hide Comp;
  }

  predicate SameColour(f: Layout, u: seq<byte>, v: seq<byte>)
    requires f.Valid() && |u| == |v| == f.bpp
  {
    u[f.ro] == v[f.ro] && u[f.go] == v[f.go] && u[f.bo] == v[f.bo]
  }

  /** For byte-aligned components both paths write the same three colour bytes, whatever the
      alpha, the colour, the source and the destination. */
  lemma PathsAgree(bpp: nat, v: BitOffsets, a: byte, r: byte, g: byte, b: byte, s: seq<byte>, d: seq<byte>)
    requires v.Valid(bpp) && v.Aligned() && |s| == |d| == bpp
    ensures SameColour(LayoutOf(bpp, v), Fast(LayoutOf(bpp, v), a, r, g, b, s, d), General(bpp, v, a, r, g, b, s))
  {
    hide Blend, Comp, PackBytes, Word, Store, ByteIndex;
    var f := LayoutOf(bpp, v);
    CompOfWord(s, v.red);
    CompOfWord(s, v.green);
    CompOfWord(s, v.blue);
    var tr, tg, tb := Blend(s[f.ro], r, a), Blend(s[f.go], g, a), Blend(s[f.bo], b, a);
    CompOfPack(v, bpp, tr, tg, tb);
    var w := PackBytes(v, tr, tg, tb);
    StoredByte(bpp, w, v.red);
    StoredByte(bpp, w, v.green);
    StoredByte(bpp, w, v.blue);
    assert General(bpp, v, a, r, g, b, s) == Store(bpp, w);
  }

  /** A byte of a packed word that holds no component is zero. */
  lemma PackLeaves(r: bv8, g: bv8, b: bv8, i: bv6, j: bv6, k: bv6, o: bv6)
    requires (i == 0 || i == 8 || i == 16 || i == 24) && (j == 0 || j == 8 || j == 16 || j == 24)
    requires (k == 0 || k == 8 || k == 16 || k == 24) && (o == 0 || o == 8 || o == 16 || o == 24)
    requires o != i && o != j && o != k
    ensures Field(Pack(r, g, b, i, j, k), o) == 0
  {
  }

  /** For byte-aligned components the general path writes the blended components and clears the
      padding. */
  lemma GeneralIsBlended(bpp: nat, v: BitOffsets, a: byte, r: byte, g: byte, b: byte, s: seq<byte>)
    requires v.Valid(bpp) && v.Aligned() && |s| == bpp
    ensures var f, out := LayoutOf(bpp, v), General(bpp, v, a, r, g, b, s);
            && BlendedBytes(f, a, r, g, b, s, out)
            && forall k :: 0 <= k < bpp && k != f.ro && k != f.go && k != f.bo ==> out[k] == 0
  {
    hide Fast, General, IsBlend;
    var f, out := LayoutOf(bpp, v), General(bpp, v, a, r, g, b, s);
    PathsAgree(bpp, v, a, r, g, b, s, s);
    FastIsBlended(f, a, r, g, b, s, s);
    forall k | 0 <= k < bpp && k != f.ro && k != f.go && k != f.bo ensures out[k] == 0 {
      GeneralPadding(bpp, v, a, r, g, b, s, k);
    }
  }

  lemma PackedPadding(v: BitOffsets, bpp: nat, r: byte, g: byte, b: byte, o: bv6)
    requires v.Valid(bpp) && v.Aligned() && (o == 0 || o == 8 || o == 16 || o == 24)
    requires o != v.red && o != v.green && o != v.blue
    ensures Comp(PackBytes(v, r, g, b), o) == 0
  {
    hide Pack, Field;
    Slot(v.red);
    Slot(v.green);
    Slot(v.blue);
    PackLeaves(r as bv8, g as bv8, b as bv8, v.red, v.green, v.blue, o);
  }

  function SlotOf(k: nat): (o: bv6)
    requires k < 4
    ensures o == 0 || o == 8 || o == 16 || o == 24
    ensures ByteIndex(o) == k
  {
    if k == 0 then 0 else if k == 1 then 8 else if k == 2 then 16 else 24
  }

  lemma StoredSlot(bpp: nat, w: bv32, k: nat)
    requires (bpp == 3 || bpp == 4) && k < bpp
    ensures Store(bpp, w)[k] == Comp(w, SlotOf(k))
  {
    hide Comp;
  }

  lemma GeneralPadding(bpp: nat, v: BitOffsets, a: byte, r: byte, g: byte, b: byte, s: seq<byte>, k: nat)
    requires v.Valid(bpp) && v.Aligned() && |s| == bpp && k < bpp
    requires var f := LayoutOf(bpp, v); k != f.ro && k != f.go && k != f.bo
    ensures General(bpp, v, a, r, g, b, s)[k] == 0
  {
    hide Blend, Word, PackBytes, Comp, Store, SlotOf;
    var w := Word(s);
    var tr := if a != 255 then Blend(Comp(w, v.red), r, a) else r;
    var tg := if a != 255 then Blend(Comp(w, v.green), g, a) else g;
    var tb := if a != 255 then Blend(Comp(w, v.blue), b, a) else b;
    assert General(bpp, v, a, r, g, b, s) == Store(bpp, PackBytes(v, tr, tg, tb));
    PackedPadding(v, bpp, tr, tg, tb, SlotOf(k));
    StoredSlot(bpp, PackBytes(v, tr, tg, tb), k);
  }

  /** Components that do not overlap can be read back from a packed word, aligned or not. */
  lemma FieldOfRed(r: bv8, g: bv8, b: bv8, i: bv6, j: bv6, k: bv6)
    requires i <= 24 && j <= 24 && k <= 24 && Apart(i, j) && Apart(i, k)
    ensures Field(Pack(r, g, b, i, j, k), i) == r
  {
  }

  lemma PackTurns(r: bv8, g: bv8, b: bv8, i: bv6, j: bv6, k: bv6)
    requires i <= 24 && j <= 24 && k <= 24
    ensures Pack(r, g, b, i, j, k) == Pack(g, r, b, j, i, k) == Pack(b, r, g, k, i, j)
  {
  }

  lemma JoinOfFields(w: bv32)
    ensures Join(Field(w, 0), Field(w, 8), Field(w, 16), Field(w, 24)) == w
  {
  }

  lemma JoinOfThree(w: bv32)
    ensures Join(Field(w, 0), Field(w, 8), Field(w, 16), 0) == w & 0xFFFFFF
  {
  }

  lemma LowField(w: bv32, o: bv6)
    requires o <= 16
    ensures Field(w & 0xFFFFFF, o) == Field(w, o)
  {
  }

  lemma SameBits(b: bv8)
    ensures (b as int) as bv8 == b
  {
  }

  /** A stored word is read back with the components it was packed with. */
  lemma StoredWord(bpp: nat, w: bv32, o: bv6)
    requires (bpp == 3 || bpp == 4) && o <= 24 && (bpp == 3 ==> o <= 16)
    ensures Comp(Word(Store(bpp, w)), o) == Comp(w, o)
  {
    hide Join, Field;
    SameBits(Field(w, 0));
    SameBits(Field(w, 8));
    SameBits(Field(w, 16));
    SameBits(Field(w, 24));
    if bpp == 4 {
      JoinOfFields(w);
    } else {
      JoinOfThree(w);
      LowField(w, o);
    }
  }

  lemma CompsOfPack(v: BitOffsets, bpp: nat, r: byte, g: byte, b: byte)
    requires v.Valid(bpp)
    ensures var w := PackBytes(v, r, g, b); Comp(w, v.red) == r && Comp(w, v.green) == g && Comp(w, v.blue) == b
  {
    hide Field, Pack;
    var x, y, z := r as bv8, g as bv8, b as bv8;
    PackTurns(x, y, z, v.red, v.green, v.blue);
    FieldOfRed(x, y, z, v.red, v.green, v.blue);
    FieldOfRed(y, x, z, v.green, v.red, v.blue);
    FieldOfRed(z, x, y, v.blue, v.red, v.green);
    SameByte(r);
    SameByte(g);
    SameByte(b);
  }

  /** The general path blends every component in its place, whatever the bit offsets. */
  lemma GeneralComponents(bpp: nat, v: BitOffsets, a: byte, r: byte, g: byte, b: byte, s: seq<byte>)
    requires v.Valid(bpp) && |s| == bpp
    ensures var u, w := Word(s), Word(General(bpp, v, a, r, g, b, s));
            && IsBlend(Comp(w, v.red), Comp(u, v.red), r, a)
            && IsBlend(Comp(w, v.green), Comp(u, v.green), g, a)
            && IsBlend(Comp(w, v.blue), Comp(u, v.blue), b, a)
  {
    hide Blend, IsBlend, Comp, Word, Store, PackBytes;
    var u := Word(s);
    var tr, tg, tb := Blend(Comp(u, v.red), r, a), Blend(Comp(u, v.green), g, a), Blend(Comp(u, v.blue), b, a);
    BlendIsShare(Comp(u, v.red), r, a);
    BlendIsShare(Comp(u, v.green), g, a);
    BlendIsShare(Comp(u, v.blue), b, a);
    var w := PackBytes(v, tr, tg, tb);
    assert General(bpp, v, a, r, g, b, s) == Store(bpp, w);
    CompsOfPack(v, bpp, tr, tg, tb);
    StoredWord(bpp, w, v.red);
    StoredWord(bpp, w, v.green);
    StoredWord(bpp, w, v.blue);
  }

  lemma Misplaced(o: bv6)
    requires o <= 24 && o & 7 != 0
    ensures o & 0x38 <= 24 && Field((1 as bv32) << o, o & 0x38) != 1
  {
  }

  /** Agreement on every alpha, colour and pixel holds if and only if the components are
      byte-aligned: one unaligned offset is enough to make the paths differ. */
  lemma PathsAgreeIffAligned(bpp: nat, v: BitOffsets)
    requires v.Valid(bpp)
    ensures v.Aligned() <==>
            forall a: byte, r: byte, g: byte, b: byte, s: seq<byte> | |s| == bpp ::
              SameColour(LayoutOf(bpp, v), Fast(LayoutOf(bpp, v), a, r, g, b, s, s), General(bpp, v, a, r, g, b, s))
  {
    hide Fast, General, SameColour;
    if v.Aligned() {
      forall a: byte, r: byte, g: byte, b: byte, s: seq<byte> | |s| == bpp
        ensures SameColour(LayoutOf(bpp, v), Fast(LayoutOf(bpp, v), a, r, g, b, s, s), General(bpp, v, a, r, g, b, s))
      {
        PathsAgree(bpp, v, a, r, g, b, s, s);
      }
    } else {
      var s: seq<byte> := seq(bpp, _ => 0);
      if v.red & 7 != 0 {
        Differs(bpp, v, 1, 0, 0, v.red, s);
      } else if v.green & 7 != 0 {
        Differs(bpp, v, 0, 1, 0, v.green, s);
      } else {
        Differs(bpp, v, 0, 0, 1, v.blue, s);
      }
    }
  }

  lemma PackOne(i: bv6, j: bv6, k: bv6)
    requires i <= 24 && j <= 24 && k <= 24
    ensures Pack(1, 0, 0, i, j, k) == (1 as bv32) << i
    ensures Pack(0, 1, 0, i, j, k) == (1 as bv32) << j
    ensures Pack(0, 0, 1, i, j, k) == (1 as bv32) << k
  {
  }

  /** A component of a word, as a number, is one exactly when it is as bits. */
  lemma CompIsOne(w: bv32, o: bv6)
    requires o <= 24
    ensures Field(w, o) != 1 ==> Comp(w, o) != 1
  {
    hide Field;
    var f := Field(w, o);
    assert (f as int) as bv8 == f;
  }

  lemma OnlyBit(v: BitOffsets, r: byte, g: byte, b: byte, o: bv6)
    requires v.red <= 24 && v.green <= 24 && v.blue <= 24 && o & 7 != 0
    requires (r, g, b, o) == (1, 0, 0, v.red) || (r, g, b, o) == (0, 1, 0, v.green) || (r, g, b, o) == (0, 0, 1, v.blue)
    ensures o & 0x38 <= 24 && Comp(PackBytes(v, r, g, b), o & 0x38) != 1
  {
    hide Field, Pack, Comp;
    Misplaced(o);
    PackOne(v.red, v.green, v.blue);
    CompIsOne((1 as bv32) << o, o & 0x38);
  }

  lemma IndexInside(bpp: nat, o: bv6)
    requires (bpp == 3 || bpp == 4) && o <= 24 && (bpp == 3 ==> o <= 16)
    ensures ByteIndex(o) < bpp
  {
  }

  lemma Differs(bpp: nat, v: BitOffsets, r: byte, g: byte, b: byte, o: bv6, s: seq<byte>)
    requires v.Valid(bpp) && |s| == bpp && o & 7 != 0
    requires (r, g, b, o) == (1, 0, 0, v.red) || (r, g, b, o) == (0, 1, 0, v.green) || (r, g, b, o) == (0, 0, 1, v.blue)
    ensures !SameColour(LayoutOf(bpp, v), Fast(LayoutOf(bpp, v), 255, r, g, b, s, s), General(bpp, v, 255, r, g, b, s))
  {
    hide Blend, Store, ByteIndex, Comp, Word, PackBytes;
    var w := PackBytes(v, r, g, b);
    OnlyBit(v, r, g, b, o);
    IndexInside(bpp, o);
    StoredByte(bpp, w, o);
    assert General(bpp, v, 255, r, g, b, s) == Store(bpp, w);
  }

  // ------------------------------------------------------------------- put_pixel

  /** put_pixel: source and destination may be the same pixel, as they are for every caller
      in the compositor. */
  method PutPixel(bpp: nat, v: BitOffsets, opt: bool, a: byte, r: byte, g: byte, b: byte,
                  src: array<byte>, si: nat, dst: array<byte>, di: nat)
    requires v.Valid(bpp) && si + bpp <= src.Length && di + bpp <= dst.Length
    requires src == dst ==> si == di
    modifies dst
    ensures dst[..di] == old(dst[..di]) && dst[di + bpp..] == old(dst[di + bpp..])
    ensures opt ==> dst[di..di + bpp] == Fast(LayoutOf(bpp, v), a, r, g, b, old(src[si..si + bpp]), old(dst[di..di + bpp]))
    ensures !opt ==> dst[di..di + bpp] == General(bpp, v, a, r, g, b, old(src[si..si + bpp]))
    ensures opt || v.Aligned() ==> BlendedBytes(LayoutOf(bpp, v), a, r, g, b, old(src[si..si + bpp]), dst[di..di + bpp])
  {
    hide Blend, LayoutOf, Word, Comp, PackBytes, Fast, General, BlendedBytes;
    if opt {
      FastIsBlended(LayoutOf(bpp, v), a, r, g, b, src[si..si + bpp], dst[di..di + bpp]);
    } else if v.Aligned() {
      GeneralIsBlended(bpp, v, a, r, g, b, src[si..si + bpp]);
    }
    PutPixelBytes(bpp, v, opt, a, r, g, b, src, si, dst, di);
  }

  method PutPixelBytes(bpp: nat, v: BitOffsets, opt: bool, a: byte, r: byte, g: byte, b: byte,
                       src: array<byte>, si: nat, dst: array<byte>, di: nat)
    requires v.Valid(bpp) && si + bpp <= src.Length && di + bpp <= dst.Length
    requires src == dst ==> si == di
    modifies dst
    ensures dst[..di] == old(dst[..di]) && dst[di + bpp..] == old(dst[di + bpp..])
    ensures opt ==> dst[di..di + bpp] == Fast(LayoutOf(bpp, v), a, r, g, b, old(src[si..si + bpp]), old(dst[di..di + bpp]))
    ensures !opt ==> dst[di..di + bpp] == General(bpp, v, a, r, g, b, old(src[si..si + bpp]))
  {
    hide Blend, LayoutOf, Word, Comp, PackBytes;
    if opt {
      PutFast(LayoutOf(bpp, v), a, r, g, b, src, si, dst, di);
    } else {
      var w := Word(src[si..si + bpp]);
      var tr, tg, tb := r, g, b;
      if a != 255 {
        tr := Blend(Comp(w, v.red), r, a);
        tg := Blend(Comp(w, v.green), g, a);
        tb := Blend(Comp(w, v.blue), b, a);
      }
      StoreWord(bpp, PackBytes(v, tr, tg, tb), dst, di);
    }
  }

  method StoreWord(bpp: nat, w: bv32, dst: array<byte>, di: nat)
    requires (bpp == 3 || bpp == 4) && di + bpp <= dst.Length
    modifies dst
    ensures dst[..di] == old(dst[..di]) && dst[di + bpp..] == old(dst[di + bpp..])
    ensures dst[di..di + bpp] == Store(bpp, w)
  {
    hide Comp;
    dst[di], dst[di + 1], dst[di + 2] := Comp(w, 0), Comp(w, 8), Comp(w, 16);
    if bpp == 4 {
      dst[di + 3] := Comp(w, 24);
    }
  }

  method SetByte(f: Layout, dst: array<byte>, di: nat, k: nat, x: byte)
    requires k < f.bpp && di + f.bpp <= dst.Length
    modifies dst
    ensures dst[..di] == old(dst[..di]) && dst[di + f.bpp..] == old(dst[di + f.bpp..])
    ensures dst[di..di + f.bpp] == old(dst[di..di + f.bpp])[k := x]
    ensures forall j :: 0 <= j < dst.Length && j != di + k ==> dst[j] == old(dst[j])
  {
    dst[di + k] := x;
  }

  method PutFast(f: Layout, a: byte, r: byte, g: byte, b: byte, src: array<byte>, si: nat, dst: array<byte>, di: nat)
    requires f.Valid() && si + f.bpp <= src.Length && di + f.bpp <= dst.Length
    requires src == dst ==> si == di
    modifies dst
    ensures dst[..di] == old(dst[..di]) && dst[di + f.bpp..] == old(dst[di + f.bpp..])
    ensures dst[di..di + f.bpp] == Fast(f, a, r, g, b, old(src[si..si + f.bpp]), old(dst[di..di + f.bpp]))
  {
    hide Blend;
    ghost var s := src[si..si + f.bpp];
    if a == 0 {
      assert src[si + f.ro] == s[f.ro];
      SetByte(f, dst, di, f.ro, src[si + f.ro]);
      assert src[si + f.go] == s[f.go];
      SetByte(f, dst, di, f.go, src[si + f.go]);
      assert src[si + f.bo] == s[f.bo];
      SetByte(f, dst, di, f.bo, src[si + f.bo]);
    } else if a == 255 {
      SetByte(f, dst, di, f.ro, r);
      SetByte(f, dst, di, f.go, g);
      SetByte(f, dst, di, f.bo, b);
    } else {
      assert src[si + f.ro] == s[f.ro];
      SetByte(f, dst, di, f.ro, Blend(src[si + f.ro], r, a));
      assert src[si + f.go] == s[f.go];
      SetByte(f, dst, di, f.go, Blend(src[si + f.go], g, a));
      assert src[si + f.bo] == s[f.bo];
      SetByte(f, dst, di, f.bo, Blend(src[si + f.bo], b, a));
    }
  }
}
