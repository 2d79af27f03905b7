/**
  Conversion of theme texts to 16-bit units (core/src/ttf.c, UTF8_to_UNICODE), against the
  encoding of RFC 3629, section 3.
 */
module Utf8 {

  // ---------------------------------------------------------------------- encoder

  type CodePoint = c: bv32 | c <= 0x10FFFF

  function Low6(v: bv32): bv8 {
    0x80 | ((v & 0x3F) as bv8)
  }

  /** The bytes of one code point. */
  function Encode(c: CodePoint): (b: seq<bv8>)
    ensures 1 <= |b| <= 4
  {
    if c < 0x80 then [c as bv8]
    else if c < 0x800 then [0xC0 | ((c >> 6) as bv8), Low6(c)]
    else if c < 0x1_0000 then [0xE0 | ((c >> 12) as bv8), Low6(c >> 6), Low6(c)]
    else [0xF0 | ((c >> 18) as bv8), Low6(c >> 12), Low6(c >> 6), Low6(c)]
  }

  function EncodeAll(cs: seq<CodePoint>): seq<bv8> {
    if cs == [] then [] else Encode(cs[0]) + EncodeAll(cs[1..])
  }

  // ---------------------------------------------------------------------- decoder

  /** Assignment to an unsigned 16-bit variable. */
  function Trunc(v: bv32): bv16 {
    (v & 0xFFFF) as bv16
  }

  function Bits(b: bv8, mask: bv8, shift: bv6): bv16
    requires shift <= 18
  {
    Trunc(((b & mask) as bv32) << shift)
  }

  /** Number of bytes the decoder takes for a given first byte. */
  function Taken(b: bv8): (n: nat)
    ensures 1 <= n <= 4
  {
    if b >= 0xF0 then 4 else if b >= 0xE0 then 3 else if b >= 0xC0 then 2 else 1
  }

  /** The unit decoded at position i of the memory that holds the text. */
  function Unit(mem: seq<bv8>, i: nat): bv16
    requires i < |mem| && i + Taken(mem[i]) <= |mem|
  {
    var b := mem[i];
    if b >= 0xF0 then Bits(b, 0x07, 18) | Bits(mem[i + 1], 0x3F, 12) | Bits(mem[i + 2], 0x3F, 6) | Bits(mem[i + 3], 0x3F, 0)
    else if b >= 0xE0 then Bits(b, 0x3F, 12) | Bits(mem[i + 1], 0x3F, 6) | Bits(mem[i + 2], 0x3F, 0)
    else if b >= 0xC0 then Bits(b, 0x3F, 6) | Bits(mem[i + 1], 0x3F, 0)
    else b as bv16
  }

  /** The position at which the decoder of a text of len bytes stops.  It lies past the end of
      the text if the last sequence is cut off. */
  function Stop(mem: seq<bv8>, i: nat, len: nat): (stop: nat)
    requires len <= |mem|
    ensures i <= stop && len <= stop
    decreases len - i
  {
    if i >= len then i else Stop(mem, i + Taken(mem[i]), len)
  }

  function Decode(mem: seq<bv8>, i: nat, len: nat): (u: seq<bv16>)
    requires len <= |mem| && Stop(mem, i, len) <= |mem|
    ensures i <= len ==> |u| <= len - i
    decreases len - i
  {
    if i >= len then [] else [Unit(mem, i)] + Decode(mem, i + Taken(mem[i]), len)
  }

  // ---------------------------------------------------------- what the decoder reads

  /** The decoder reads no byte at or after its stopping position: memories that agree before it
      are decoded alike. */
  lemma {:induction false} ReadsBeforeStop(mem: seq<bv8>, mem': seq<bv8>, i: nat, len: nat)
    requires len <= |mem| && Stop(mem, i, len) <= |mem| && Stop(mem, i, len) <= |mem'|
    requires forall k :: 0 <= k < Stop(mem, i, len) ==> mem'[k] == mem[k]
    ensures Stop(mem', i, len) == Stop(mem, i, len)
    ensures Decode(mem', i, len) == Decode(mem, i, len)
    decreases len - i
  {
    hide Bits, Taken;
    if i < len {
      ReadsBeforeStop(mem, mem', i + Taken(mem[i]), len);
      SameUnit(mem, mem', i);
    }
  }

  lemma SameUnit(mem: seq<bv8>, mem': seq<bv8>, i: nat)
    requires i < |mem| && i + Taken(mem[i]) <= |mem| && i + Taken(mem[i]) <= |mem'|
    requires forall k :: i <= k < i + Taken(mem[i]) ==> mem'[k] == mem[k]
    ensures Unit(mem', i) == Unit(mem, i)
  {
    hide Bits;
  }

  function Joined(parts: seq<seq<bv8>>): seq<bv8> {
    if parts == [] then [] else parts[0] + Joined(parts[1..])
  }

  /** Every part has as many bytes as its first byte announces. */
  predicate Complete(parts: seq<seq<bv8>>) {
    forall k :: 0 <= k < |parts| ==> parts[k] != [] && |parts[k]| == Taken(parts[k][0])
  }

  /** The decoder stops exactly at the end of a text, and so reads nothing beyond it, if and only
      if the text consists of complete sequences. */
  lemma StopsAtEndIff(mem: seq<bv8>, len: nat)
    requires len <= |mem|
    ensures Stop(mem, 0, len) == len <==> exists parts :: Complete(parts) && Joined(parts) == mem[..len]
  {
    assert mem[0..len] == mem[..len];
    if Stop(mem, 0, len) == len {
      var parts := PartsOf(mem, 0, len);
    }
    forall parts | Complete(parts) && Joined(parts) == mem[..len] ensures Stop(mem, 0, len) == len {
      StopOfParts(mem, 0, len, parts);
    }
  }

  lemma {:induction false} PartsOf(mem: seq<bv8>, i: nat, len: nat) returns (parts: seq<seq<bv8>>)
    requires i <= len <= |mem| && Stop(mem, i, len) == len
    ensures Complete(parts) && Joined(parts) == mem[i..len]
    decreases len - i
  {
    hide Taken;
    if i == len {
      parts := [];
    } else {
      var n := Taken(mem[i]);
      var first := mem[i..i + n];
      var rest := PartsOf(mem, i + n, len);
      parts := [first] + rest;
      assert mem[i..len] == first + mem[i + n..len];
    }
  }

  lemma {:induction false} StopOfParts(mem: seq<bv8>, i: nat, len: nat, parts: seq<seq<bv8>>)
    requires i <= len <= |mem| && Complete(parts) && Joined(parts) == mem[i..len]
    ensures Stop(mem, i, len) == len
    decreases |parts|
  {
    hide Taken;
    if parts != [] {
      SplitSlice(mem, i, len, parts[0], Joined(parts[1..]));
      assert mem[i] == mem[i..i + |parts[0]|][0];
      StopOfParts(mem, i + |parts[0]|, len, parts[1..]);
    }
  }

  // ---------------------------------------------------------------------- inversion

  lemma FirstByte(c: CodePoint)
    ensures Taken(Encode(c)[0]) == |Encode(c)|
  {
  }

  lemma OneByte(c: CodePoint)
    requires c < 0x80
    ensures (c as bv8) as bv16 == Trunc(c)
  {
  }

  lemma TwoBytes(c: CodePoint)
    requires 0x80 <= c < 0x800
    ensures Bits(0xC0 | ((c >> 6) as bv8), 0x3F, 6) | Bits(Low6(c), 0x3F, 0) == Trunc(c)
  {
  }

  /** The lead byte contributes bit 17 as well; the truncation to 16 bits drops it. */
  lemma ThreeBytes(c: CodePoint)
    requires 0x800 <= c < 0x1_0000
    ensures Bits(0xE0 | ((c >> 12) as bv8), 0x3F, 12) | Bits(Low6(c >> 6), 0x3F, 6) | Bits(Low6(c), 0x3F, 0) == Trunc(c)
  {
  }

  lemma FourBytes(c: CodePoint)
    requires 0x1_0000 <= c
    ensures Bits(0xF0 | ((c >> 18) as bv8), 0x07, 18) | Bits(Low6(c >> 12), 0x3F, 12) | Bits(Low6(c >> 6), 0x3F, 6)
            | Bits(Low6(c), 0x3F, 0) == Trunc(c)
  {
  }

  lemma UnitOfEncoded(mem: seq<bv8>, i: nat, c: CodePoint)
    requires i + |Encode(c)| <= |mem| && mem[i..i + |Encode(c)|] == Encode(c)
    ensures Taken(mem[i]) == |Encode(c)| && Unit(mem, i) == Trunc(c)
  {
    hide Bits, Low6, Trunc;
    FirstByte(c);
    var e := Encode(c);
    assert forall k :: 0 <= k < |e| ==> mem[i + k] == e[k];
    assert mem[i] == e[0];
    assert |e| > 1 ==> mem[i + 1] == e[1];
    assert |e| > 2 ==> mem[i + 2] == e[2];
    assert |e| > 3 ==> mem[i + 3] == e[3];
    if c < 0x80 {
      OneByte(c);
    } else if c < 0x800 {
      TwoBytes(c);
    } else if c < 0x1_0000 {
      ThreeBytes(c);
    } else {
      FourBytes(c);
    }
  }

  lemma SplitSlice(mem: seq<bv8>, i: nat, len: nat, e: seq<bv8>, rest: seq<bv8>)
    requires i <= len <= |mem| && mem[i..len] == e + rest
    ensures i + |e| <= len && mem[i..i + |e|] == e && mem[i + |e|..len] == rest
  {
    var s := mem[i..len];
    assert s[..|e|] == e && s[|e|..] == rest;
  }

  function Truncated(cs: seq<CodePoint>): (u: seq<bv16>)
    ensures |u| == |cs| && forall k :: 0 <= k < |cs| ==> u[k] == Trunc(cs[k])
  {
    seq(|cs|, k requires 0 <= k < |cs| => Trunc(cs[k]))
  }

  /** Decoding the encoding of any string of code points gives their low 16 bits, one unit for
      each, and stops exactly at the end of the string. */
  lemma {:induction false} DecodeEncoded(mem: seq<bv8>, i: nat, len: nat, cs: seq<CodePoint>)
    requires i <= len <= |mem| && mem[i..len] == EncodeAll(cs)
    ensures Stop(mem, i, len) == len
    ensures Decode(mem, i, len) == Truncated(cs)
    decreases |cs|
  {
    hide Encode, Unit, Trunc, Taken;
    if cs != [] {
      var e, rest := Encode(cs[0]), EncodeAll(cs[1..]);
      SplitSlice(mem, i, len, e, rest);
      UnitOfEncoded(mem, i, cs[0]);
      DecodeEncoded(mem, i + |e|, len, cs[1..]);
      assert Truncated(cs) == [Trunc(cs[0])] + Truncated(cs[1..]);
    }
  }

  lemma TruncExact(c: CodePoint)
    ensures Trunc(c) as bv32 == c <==> c <= 0xFFFF
  {
  }

  /** The decoder inverts the encoding of a string if and only if all its code points are at
      most U+FFFF. */
  lemma InvertsIff(mem: seq<bv8>, len: nat, cs: seq<CodePoint>)
    requires len <= |mem| && mem[..len] == EncodeAll(cs)
    ensures Stop(mem, 0, len) == len && |Decode(mem, 0, len)| == |cs|
    ensures (forall k :: 0 <= k < |cs| ==> Decode(mem, 0, len)[k] as bv32 == cs[k]) <==>
            (forall k :: 0 <= k < |cs| ==> cs[k] <= 0xFFFF)
  {
    hide Decode, Trunc;
    assert mem[0..len] == mem[..len];
    DecodeEncoded(mem, 0, len, cs);
    forall k | 0 <= k < |cs| ensures Decode(mem, 0, len)[k] as bv32 == cs[k] <==> cs[k] <= 0xFFFF {
      TruncExact(cs[k]);
    }
  }

  // ------------------------------------------------------------------ the loop

  /** UTF8_to_UNICODE: `mem` is the memory from the first byte of the text on.  For every input,
      well formed or not, at most len + 1 units are stored.  The result is false if the program
      would read past the memory. */
  method Utf8ToUnicode(unicode: array<bv16>, mem: seq<bv8>, len: nat) returns (ok: bool, count: nat)
    requires len <= |mem| && unicode.Length >= len + 1
    modifies unicode
    ensures ok <==> Stop(mem, 0, len) <= |mem|
    ensures ok ==> count == |Decode(mem, 0, len)| && unicode[..count] == Decode(mem, 0, len) && unicode[count] == 0
    ensures count <= len && unicode[count + 1..] == old(unicode[count + 1..])
  {
    hide Decode, Unit, Taken, Stop;
    var i, j := 0, 0;
    ghost var done: seq<bv16> := [];
    while i < len
      invariant j == |done| && j <= i <= |mem| && j <= len
      invariant Stop(mem, i, len) == Stop(mem, 0, len)
      invariant Stop(mem, 0, len) <= |mem| ==> done + Decode(mem, i, len) == Decode(mem, 0, len)
      invariant forall k :: 0 <= k < unicode.Length ==> unicode[k] == if k < j then done[k] else old(unicode[k])
      decreases len - i
    {
      DecodeStep(mem, i, len);
      if i + Taken(mem[i]) > |mem| {
        return false, j;
      }
      var ch, next := UnitAt(mem, i);
      unicode[j] := ch;
      if Stop(mem, 0, len) <= |mem| {
        assert done + ([ch] + Decode(mem, next, len)) == done + [ch] + Decode(mem, next, len);
      }
      done := done + [ch];
      i, j := next, j + 1;
    }
    StopEnd(mem, i, len);
    unicode[j] := 0;
    return true, j;
  }

  lemma DecodeStep(mem: seq<bv8>, i: nat, len: nat)
    requires i < len <= |mem|
    ensures Stop(mem, i, len) == Stop(mem, i + Taken(mem[i]), len)
    ensures Stop(mem, i, len) <= |mem| ==>
            Decode(mem, i, len) == [Unit(mem, i)] + Decode(mem, i + Taken(mem[i]), len)
  {
  }

  lemma StopEnd(mem: seq<bv8>, i: nat, len: nat)
    requires len <= |mem| && i >= len
    ensures Stop(mem, i, len) == i
    ensures i <= |mem| ==> Decode(mem, i, len) == []
  {
  }

  /** The body of the loop: the unit at i and the position after it. */
  method UnitAt(mem: seq<bv8>, i: nat) returns (ch: bv16, next: nat)
    requires i < |mem| && i + Taken(mem[i]) <= |mem|
    ensures ch == Unit(mem, i) && next == i + Taken(mem[i])
  {
    hide Bits;
    var b := mem[i];
    next := i;
    if b >= 0xF0 {
      ch := Bits(b, 0x07, 18);
      next := next + 1;
      ch := ch | Bits(mem[next], 0x3F, 12);
      next := next + 1;
      ch := ch | Bits(mem[next], 0x3F, 6);
      next := next + 1;
      ch := ch | Bits(mem[next], 0x3F, 0);
    } else if b >= 0xE0 {
      ch := Bits(b, 0x3F, 12);
      next := next + 1;
      ch := ch | Bits(mem[next], 0x3F, 6);
      next := next + 1;
      ch := ch | Bits(mem[next], 0x3F, 0);
    } else if b >= 0xC0 {
      ch := Bits(b, 0x3F, 6);
      next := next + 1;
      ch := ch | Bits(mem[next], 0x3F, 0);
    } else {
      ch := b as bv16;
    }
    next := next + 1;
  }
}
