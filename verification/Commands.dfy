/**
  The textual commands of the daemon: the command table, what a line of text means, and how
  commands are printed (core/src/daemon_cmd.c, known_cmds and daemon_comm; core/src/libfbsplash.c,
  fbsplash_send).

  Texts here are C strings, so they contain no NUL character.
 */
module Commands {
  import opened Decimals

  /** One argument: a missing one is a null pointer. */
  datatype Arg = Null | Text(text: string) | Number(value: int)

  datatype Entry = Entry(cmd: string, specs: string)

  datatype Call = Call(cmd: string, args: seq<Arg>)

  datatype Outcome = Abandoned | Parsed(args: seq<Arg>)

  /** known_cmds: one letter for each argument, s for a string and d for a number. */
  const TABLE := [
    Entry("set theme", "s"), Entry("set mode", "s"), Entry("set tty", "sd"), Entry("set event dev", "s"),
    Entry("set message", "s"), Entry("set autoverbose", "d"), Entry("set gpm", ""), Entry("set effects", "ss"),
    Entry("paint rect", "dddd"), Entry("paint", ""), Entry("repaint", ""), Entry("progress", "d"),
    Entry("update_svc", "ss"), Entry("log", "s"), Entry("exit", "s")]

  // ----------------------------------------------------------------------- strtol

  predicate IsSpace(c: char) {
    c == ' ' || '\t' <= c <= '\r'
  }

  function DigitOf(c: char): nat {
    if '0' <= c <= '9' then (c - '0') as int
    else if 'a' <= c <= 'z' then (c - 'a') as int + 10
    else if 'A' <= c <= 'Z' then (c - 'A') as int + 10
    else 99
  }

  /** The value of the digits at the front of a text, continuing from v, and their number. */
  function Number0(s: string, base: nat, v: nat): (nat, nat) {
    if s != [] && DigitOf(s[0]) < base then
      var (w, n) := Number0(s[1..], base, v * base + DigitOf(s[0]));
      (w, n + 1)
    else (v, 0)
  }

  function Blanks(s: string): (n: nat)
    ensures n <= |s|
  {
    if s != [] && IsSpace(s[0]) then 1 + Blanks(s[1..]) else 0
  }

  /** strtol with base 0, on text after blanks and sign: the magnitude and the number of
      characters used, 0 if there is no number. */
  function Magnitude(s: string): (nat, nat) {
    if |s| > 2 && s[0] == '0' && (s[1] == 'x' || s[1] == 'X') && DigitOf(s[2]) < 16 then
      var (v, n) := Number0(s[2..], 16, 0);
      (v, n + 2)
    else if |s| > 0 && s[0] == '0' then Number0(s, 8, 0)
    else Number0(s, 10, 0)
  }

  /** A 64-bit long saturates, and storing it in an int keeps the low 32 bits. */
  function ToInt(v: int): (r: int)
    ensures -0x8000_0000 <= r < 0x8000_0000
    ensures -0x8000_0000 <= v < 0x8000_0000 ==> r == v
  {
    var l := if v > 0x7fff_ffff_ffff_ffff then 0x7fff_ffff_ffff_ffff
             else if v < -0x8000_0000_0000_0000 then -0x8000_0000_0000_0000 else v;
    (l + 0x8000_0000) % 0x1_0000_0000 - 0x8000_0000
  }

  /** strtol as the parser uses it: the int stored and the number of characters used. */
  function Strtol(s: string): (int, nat) {
    var b := Blanks(s);
    var sign := if b < |s| && (s[b] == '-' || s[b] == '+') then 1 else 0;
    var (v, n) := Magnitude(s[b + sign..]);
    if n == 0 then (0, 0)
    else
      var signed: int := if sign == 1 && s[b] == '-' then -(v as int) else v;
      (ToInt(signed), b + sign + n)
  }

  /** Inside the range of a long the int differs by a multiple of 2 to the 32; outside it is that of
      the nearest long. */
  lemma ToIntWraps(v: int)
    ensures -0x8000_0000_0000_0000 <= v <= 0x7fff_ffff_ffff_ffff ==> (ToInt(v) - v) % 0x1_0000_0000 == 0
    ensures v > 0x7fff_ffff_ffff_ffff ==> ToInt(v) == -1
    ensures v < -0x8000_0000_0000_0000 ==> ToInt(v) == 0
  {
  }

  const LOWER := "0123456789abcdef"
  const UPPER := "0123456789ABCDEF"

  /** c is the digit d, in either case. */
  predicate IsDigit(c: char, d: nat) {
    d < 16 && (LOWER[d] == c || UPPER[d] == c)
  }

  lemma DigitIs(c: char, d: nat)
    requires d < 16
    ensures DigitOf(c) == d <==> IsDigit(c, d)
  {
  }

  /** ds are digits of a base, with values vs. */
  predicate Numeral(ds: string, vs: seq<nat>, base: nat) {
    |ds| == |vs| && forall i :: 0 <= i < |ds| ==> vs[i] < base <= 16 && IsDigit(ds[i], vs[i])
  }

  /** The number with the given digits, the most significant first. */
  function ValueOf(vs: seq<nat>, base: nat): nat {
    if vs == [] then 0 else ValueOf(vs[..|vs| - 1], base) * base + vs[|vs| - 1]
  }

  /** The value of the digits that follow a value v. */
  function Following(vs: seq<nat>, base: nat, v: nat): nat {
    if vs == [] then v else Following(vs[1..], base, v * base + vs[0])
  }

  lemma {:induction false} FollowingLast(vs: seq<nat>, base: nat, v: nat)
    requires vs != []
    ensures Following(vs, base, v) == Following(vs[..|vs| - 1], base, v) * base + vs[|vs| - 1]
    decreases |vs|
  {
    if |vs| > 1 {
      FollowingLast(vs[1..], base, v * base + vs[0]);
      assert vs[1..][..|vs| - 2] == vs[..|vs| - 1][1..];
    }
  }

  lemma {:induction false} FollowingIsValue(vs: seq<nat>, base: nat)
    ensures Following(vs, base, 0) == ValueOf(vs, base)
    decreases |vs|
  {
    if vs != [] {
      FollowingLast(vs, base, 0);
      FollowingIsValue(vs[..|vs| - 1], base);
    }
  }

  predicate StopsDigits(rest: string, base: nat) {
    rest == [] || forall d :: 0 <= d < base && d < 16 ==> !IsDigit(rest[0], d)
  }

  lemma DigitStops(c: char, base: nat)
    requires base <= 16
    ensures DigitOf(c) < base <==> exists d :: 0 <= d < base && IsDigit(c, d)
  {
    if DigitOf(c) < base {
      DigitIs(c, DigitOf(c));
    }
    forall d | 0 <= d < base && IsDigit(c, d) ensures DigitOf(c) < base {
      DigitIs(c, d);
    }
  }

  lemma {:induction false} NumeralFollows(ds: string, vs: seq<nat>, rest: string, base: nat, v: nat)
    requires Numeral(ds, vs, base) && base <= 16 && StopsDigits(rest, base)
    ensures Number0(ds + rest, base, v) == (Following(vs, base, v), |ds|)
    decreases |ds|
  {
    hide IsDigit, DigitOf;
    if ds == [] {
      assert ds + rest == rest;
      if rest != [] {
        DigitStops(rest[0], base);
      }
    } else {
      DigitIs(ds[0], vs[0]);
      assert (ds + rest)[0] == ds[0] && (ds + rest)[1..] == ds[1..] + rest;
      NumeralFollows(ds[1..], vs[1..], rest, base, v * base + vs[0]);
    }
  }

  /** strtol reads hexadecimal numbers after 0x, octal ones after 0, and decimal ones. */
  lemma NumeralRead(ds: string, vs: seq<nat>, rest: string, base: nat)
    requires Numeral(ds, vs, base) && StopsDigits(rest, base)
    ensures base == 16 && ds != [] ==>
              Magnitude("0x" + ds + rest) == (ValueOf(vs, 16), |ds| + 2) && Magnitude("0X" + ds + rest) == (ValueOf(vs, 16), |ds| + 2)
    ensures base == 8 && (ds + rest == [] || (ds + rest)[0] !in "xX") ==> Magnitude("0" + ds + rest) == (ValueOf(vs, 8), |ds| + 1)
    ensures base == 10 && ds != [] && vs[0] != 0 ==> Magnitude(ds + rest) == (ValueOf(vs, 10), |ds|)
  {
    hide Number0, IsDigit;
    if base <= 16 {
      NumeralFollows(ds, vs, rest, base, 0);
    }
    FollowingIsValue(vs, base);
    if base == 16 && ds != [] {
      DigitIs(ds[0], vs[0]);
      HexPrefix("0x", ds + rest);
      HexPrefix("0X", ds + rest);
      assert "0x" + ds + rest == "0x" + (ds + rest) && "0X" + ds + rest == "0X" + (ds + rest);
    }
    if base == 8 && (ds + rest == [] || (ds + rest)[0] !in "xX") {
      OctalPrefix(ds + rest);
      assert "0" + ds + rest == "0" + (ds + rest);
    }
    if base == 10 && ds != [] && vs[0] != 0 {
      DigitIs(ds[0], vs[0]);
      assert (ds + rest)[0] == ds[0];
    }
  }

  lemma HexCase(s: string)
    requires |s| > 2 && s[0] == '0' && (s[1] == 'x' || s[1] == 'X') && DigitOf(s[2]) < 16
    ensures Magnitude(s) == (Number0(s[2..], 16, 0).0, Number0(s[2..], 16, 0).1 + 2)
  {
    hide Number0, DigitOf;
  }

  lemma OctalCase(s: string)
    requires s != [] && s[0] == '0' && (|s| > 1 ==> s[1] != 'x' && s[1] != 'X')
    ensures Magnitude(s) == Number0(s, 8, 0)
  {
    hide Number0, DigitOf;
  }

  lemma HexPrefix(prefix: string, t: string)
    requires (prefix == "0x" || prefix == "0X") && t != [] && DigitOf(t[0]) < 16
    ensures Magnitude(prefix + t) == (Number0(t, 16, 0).0, Number0(t, 16, 0).1 + 2)
  {
    hide Number0, DigitOf, Magnitude;
    var s := prefix + t;
    assert |prefix| == 2 && prefix[0] == '0' && (prefix[1] == 'x' || prefix[1] == 'X');
    assert s[0] == prefix[0] && s[1] == prefix[1] && s[2] == t[0];
    assert s[2..] == t;
    HexCase(s);
  }

  lemma OctalPrefix(t: string)
    requires t == [] || t[0] !in "xX"
    ensures Magnitude("0" + t) == (Number0(t, 8, 0).0, Number0(t, 8, 0).1 + 1)
  {
    hide Magnitude;
    var s := "0" + t;
    assert s[0] == '0' && s[1..] == t;
    if |s| > 1 {
      assert s[1] == t[0];
      NotX(t[0]);
    }
    OctalCase(s);
    ZeroFirst(s);
  }

  lemma NotX(c: char)
    requires c !in "xX"
    ensures c != 'x' && c != 'X'
  {
    assert "xX"[0] == 'x' && "xX"[1] == 'X';
  }

  lemma ZeroFirst(s: string)
    requires s != [] && s[0] == '0'
    ensures Number0(s, 8, 0) == (Number0(s[1..], 8, 0).0, Number0(s[1..], 8, 0).1 + 1)
  {
    assert DigitOf('0') == 0;
  }

  /** The blanks of the C locale. */
  const BLANKS := " \t\n\U{b}\U{c}\r"

  lemma BlankIs(c: char)
    ensures IsSpace(c) <==> c in BLANKS
  {
    assert BLANKS[0] == ' ' && BLANKS[1] == '\t' && BLANKS[2] == '\n' && BLANKS[3] as int == 11 && BLANKS[4] as int == 12 && BLANKS[5] == '\r';
    if IsSpace(c) && c != ' ' {
      assert c == BLANKS[c as int - 8];
    }
  }

  predicate AllBlank(s: string) {
    forall i :: 0 <= i < |s| ==> s[i] in BLANKS
  }

  lemma {:induction false} BlanksSkipped(ws: string, t: string)
    requires AllBlank(ws) && (t == [] || !IsSpace(t[0]))
    ensures Blanks(ws + t) == |ws|
    decreases |ws|
  {
    if ws == [] {
      assert ws + t == t;
    } else {
      assert (ws + t)[0] == ws[0] && (ws + t)[1..] == ws[1..] + t;
      BlankIs(ws[0]);
      BlanksSkipped(ws[1..], t);
    }
  }

  /** strtol skips blanks of every kind, takes one sign, and then a magnitude. */
  lemma StrtolSigned(ws: string, sign: string, t: string)
    requires AllBlank(ws) && sign in {"", "-", "+"} && t != [] && '0' <= t[0] <= '9'
    ensures var (v, n) := Magnitude(t);
            n > 0 && Strtol(ws + sign + t) == (ToInt(if sign == "-" then -(v as int) else v), |ws| + |sign| + n)
  {
    hide ToInt, Magnitude, Strtol, Blanks;
    var s := ws + sign + t;
    SignedParts(sign, t);
    assert s == ws + (sign + t);
    BlanksSkipped(ws, sign + t);
    assert s[|ws|..] == sign + t && s[|ws| + |sign|..] == t && s[|ws|] == (sign + t)[0];
    MagnitudeReads(t);
    StrtolFrom(s, |ws|, if sign == "" then 0 else 1);
  }

  lemma SignedParts(sign: string, t: string)
    requires sign in {"", "-", "+"} && t != [] && '0' <= t[0] <= '9'
    ensures (sign + t)[0] == (if sign == "" then t[0] else sign[0]) && !IsSpace((sign + t)[0])
    ensures sign != "" ==> |sign| == 1 && (sign[0] == '-' <==> sign == "-") && (sign[0] == '-' || sign[0] == '+')
  {
  }

  lemma StrtolFrom(s: string, b: nat, k: nat)
    requires Blanks(s) == b < |s| && k == (if s[b] == '-' || s[b] == '+' then 1 else 0)
    ensures var (v, n) := Magnitude(s[b + k..]);
            Strtol(s) == if n == 0 then (0, 0) else (ToInt(if s[b] == '-' then -(v as int) else v), b + k + n)
  {
    hide ToInt, Magnitude, Blanks;
  }

  lemma Number0Reads(s: string, base: nat)
    requires s != []
    ensures Number0(s, base, 0).1 > 0 <==> DigitOf(s[0]) < base
  {
    hide DigitOf;
  }

  lemma DecimalDigit(c: char)
    ensures DigitOf(c) < 10 <==> '0' <= c <= '9'
    ensures DigitOf('0') == 0
  {
  }

  lemma MagnitudeReads(t: string)
    requires t != []
    ensures Magnitude(t).1 > 0 <==> '0' <= t[0] <= '9'
  {
    hide DigitOf;
    DecimalDigit(t[0]);
    if t[0] == '0' {
      ZeroFirst(t);
    } else {
      Number0Reads(t, 10);
    }
  }

  /** strtol reads a number if and only if there is a digit after blanks and a sign. */
  lemma StrtolReadsIff(s: string)
    ensures Strtol(s).1 > 0 <==>
            var b := Blanks(s);
            var k := b + if b < |s| && (s[b] == '-' || s[b] == '+') then 1 else 0;
            k < |s| && '0' <= s[k] <= '9'
  {
    hide ToInt;
    var b := Blanks(s);
    var k := b + if b < |s| && (s[b] == '-' || s[b] == '+') then 1 else 0;
    if k < |s| {
      hide Magnitude;
      MagnitudeReads(s[k..]);
    }
  }

  lemma {:induction false} Number0Fits(s: string, base: nat, v: nat)
    ensures Number0(s, base, v).1 <= |s|
    decreases |s|
  {
    if s != [] && DigitOf(s[0]) < base {
      Number0Fits(s[1..], base, v * base + DigitOf(s[0]));
    }
  }

  lemma StrtolFits(s: string)
    ensures Strtol(s).1 <= |s|
    ensures -0x8000_0000 <= Strtol(s).0 < 0x8000_0000
  {
    hide Number0, ToInt;
    var b := Blanks(s);
    var sign := if b < |s| && (s[b] == '-' || s[b] == '+') then 1 else 0;
    var r := s[b + sign..];
    Number0Fits(r, 8, 0);
    Number0Fits(r, 10, 0);
    if |r| > 2 {
      Number0Fits(r[2..], 16, 0);
    }
  }

  predicate StopsNumber(rest: string) {
    rest == [] || rest[0] == ' '
  }

  lemma ShiftDigit(v: nat, p: nat, n: nat)
    ensures (v * p + n / 10) * 10 + n % 10 == v * (10 * p) + n
  {
    assert v * (10 * p) == v * p * 10;
  }

  lemma OneMoreDigit(d: nat, rest: string, v: nat)
    requires d < 10
    ensures Number0([Digit(d)] + rest, 10, v) == (Number0(rest, 10, v * 10 + d).0, Number0(rest, 10, v * 10 + d).1 + 1)
  {
    var t := [Digit(d)] + rest;
    assert t[0] == Digit(d) && t[1..] == rest && DigitOf(t[0]) == d;
  }

  /** Reading printed digits after a value v. */
  lemma {:induction false} Number0Digits(n: nat, rest: string, v: nat)
    ensures var w := v * Pow10(|Digits(n)|) + n;
            Number0(Digits(n) + rest, 10, v) == (Number0(rest, 10, w).0, |Digits(n)| + Number0(rest, 10, w).1)
    decreases n
  {
    hide Number0, Digit;
    if n < 10 {
      OneMoreDigit(n, rest, v);
      assert Pow10(1) == 10 * Pow10(0) == 10;
    } else {
      var a := Digits(n / 10);
      var t := [Digit(n % 10)] + rest;
      assert Digits(n) + rest == a + t;
      Number0Digits(n / 10, t, v);
      OneMoreDigit(n % 10, rest, v * Pow10(|a|) + n / 10);
      assert Pow10(|Digits(n)|) == 10 * Pow10(|a|);
      ShiftDigit(v, Pow10(|a|), n);
    }
  }

  /** A printed decimal number is read back, whatever follows after a blank. */
  lemma DigitsRead(n: nat, rest: string)
    requires StopsNumber(rest)
    ensures Magnitude(Digits(n) + rest) == (n, |Digits(n)|)
  {
    var t := Digits(n) + rest;
    assert t[0] == Digits(n)[0];
    if n == 0 {
      assert t == "0" + rest && t[1..] == rest;
      assert |t| > 1 ==> t[1] == ' ';
      assert DigitOf(t[0]) == 0;
      assert Number0(rest, 8, 0) == (0, 0);
    } else {
      Number0Digits(n, rest, 0);
      assert Number0(rest, 10, n) == (n, 0);
    }
  }

  lemma StrtolUnsigned(s: string)
    requires s != [] && '0' <= s[0] <= '9'
    ensures Strtol(s) == (var (v, n) := Magnitude(s); if n == 0 then (0, 0) else (ToInt(v), n))
  {
    hide Magnitude, ToInt;
    assert Blanks(s) == 0 && s[0..] == s;
  }

  lemma StrtolNegative(s: string)
    requires s != [] && s[0] == '-'
    ensures Strtol(s) == (var (v, n) := Magnitude(s[1..]); if n == 0 then (0, 0) else (ToInt(-(v as int)), n + 1))
  {
    hide Magnitude, ToInt;
    assert Blanks(s) == 0;
  }

  lemma Minus(d: string, rest: string)
    ensures ("-" + d + rest)[0] == '-' && ("-" + d + rest)[1..] == d + rest
  {
  }

  lemma NaturalRead(n: nat, rest: string)
    requires StopsNumber(rest) && n < 0x8000_0000
    ensures Strtol(Digits(n) + rest) == (n, |Digits(n)|)
  {
    hide Magnitude, Strtol, Digits;
    DigitsRead(n, rest);
    StrtolUnsigned(Digits(n) + rest);
  }

  lemma NegativeRead(n: nat, rest: string)
    requires StopsNumber(rest) && n <= 0x8000_0000
    ensures Strtol("-" + Digits(n) + rest) == (-(n as int), |Digits(n)| + 1)
  {
    hide Magnitude, Strtol, Digits;
    DigitsRead(n, rest);
    Minus(Digits(n), rest);
    StrtolNegative("-" + Digits(n) + rest);
  }

  lemma DecimalRead(v: int, rest: string)
    requires StopsNumber(rest) && -0x8000_0000 <= v < 0x8000_0000
    ensures Strtol(Decimal(v) + rest) == (v, |Decimal(v)|)
  {
    hide Strtol, Digits;
    if v < 0 {
      NegativeRead(-v, rest);
    } else {
      NaturalRead(v, rest);
    }
  }

  // ------------------------------------------------------------------ reading a line

  function AfterSpaces(s: string): (t: string)
    ensures |t| <= |s| && (t != [] ==> t[0] != ' ')
  {
    if s != [] && s[0] == ' ' then AfterSpaces(s[1..]) else s
  }

  function WordLength(s: string): (n: nat)
    ensures n <= |s| && (n < |s| ==> s[n] == ' ')
    ensures forall i :: 0 <= i < n ==> s[i] != ' '
  {
    if s != [] && s[0] != ' ' then 1 + WordLength(s[1..]) else 0
  }

  /** One argument read from the front of a text, with what is left of it. */
  datatype First = Unreadable | Read(arg: Arg, rest: string)

  /** A string ends at the next space, except that the last argument of a command, if it is a
      string, is the whole rest of the line. */
  function FirstArg(s: string, kind: char, last: bool): First {
    var t := AfterSpaces(s);
    if t == [] then Read(Null, t)
    else if kind == 's' then
      var w := WordLength(t);
      Read(Text(if last then t else t[..w]), t[w..])
    else
      var (v, n) := Strtol(t);
      StrtolFits(t);
      if n == 0 then Unreadable else Read(Number(v), t[n..])
  }

  lemma {:induction false} SpacesSkipped(pad: string, s: string)
    requires forall i :: 0 <= i < |pad| ==> pad[i] == ' '
    ensures AfterSpaces(pad + s) == AfterSpaces(s)
    decreases |pad|
  {
    if pad == [] {
      assert pad + s == s;
    } else {
      assert (pad + s)[0] == ' ' && (pad + s)[1..] == pad[1..] + s;
      SpacesSkipped(pad[1..], s);
    }
  }

  /** Any number of spaces may stand before an argument; without an argument it is missing; a
      number has to begin with a digit after its sign. */
  lemma FirstArgIs(pad: string, s: string, kind: char, last: bool)
    requires forall i :: 0 <= i < |pad| ==> pad[i] == ' '
    ensures FirstArg(pad + s, kind, last) == FirstArg(s, kind, last)
    ensures FirstArg(pad, kind, last) == Read(Null, [])
    ensures s != [] && s[0] != ' ' ==>
              (FirstArg(s, kind, last).Unreadable? <==> kind != 's' && Strtol(s).1 == 0)
              && (kind == 's' && last ==> FirstArg(s, kind, last).arg == Text(s))
  {
    hide Strtol;
    SpacesSkipped(pad, s);
    SpacesSkipped(pad, []);
    assert pad + [] == pad;
  }

  /** The arguments read from the rest of a line.  A number that cannot be read abandons the
      line. */
  function ParseArgs(s: string, specs: string): Outcome
    decreases |specs|
  {
    if specs == [] then Parsed([])
    else
      match FirstArg(s, specs[0], |specs| == 1)
      case Unreadable => Abandoned
      case Read(a, rest) => Prepend(a, ParseArgs(rest, specs[1..]))
  }

  function Prepend(a: Arg, o: Outcome): Outcome {
    if o.Parsed? then Parsed([a] + o.args) else Abandoned
  }

  /** The handler calls a line leads to, from table position i on.  There is no stop after a
      match, so a line that begins with two commands calls both handlers. */
  function DispatchFrom(line: string, i: nat): seq<Call>
    requires i <= |TABLE|
    decreases |TABLE| - i
  {
    if i == |TABLE| then []
    else if TABLE[i].cmd <= line then
      var o := ParseArgs(line[|TABLE[i].cmd|..], TABLE[i].specs);
      if o.Abandoned? then [] else [Call(TABLE[i].cmd, o.args)] + DispatchFrom(line, i + 1)
    else DispatchFrom(line, i + 1)
  }

  function Dispatch(line: string): seq<Call> {
    DispatchFrom(line, 0)
  }

  /** Two different commands that both begin a line: the only such pair is paint rect and paint,
      in this order. */
  lemma TwoCommands(line: string, i: nat, j: nat)
    requires i < j < |TABLE| && TABLE[i].cmd <= line && TABLE[j].cmd <= line
    ensures i == 8 && j == 9
  {
    SameInitials(TABLE[i].cmd, TABLE[j].cmd, line);
    if i < 8 {
      SetCommandsDiffer(i, j);
    } else {
      OtherCommandsDiffer(i, j);
    }
  }

  /** Two names agree on the characters by which the table tells its commands apart. */
  predicate Alike(a: string, b: string) {
    && (|a| > 0 && |b| > 0 ==> a[0] == b[0])
    && (|a| > 1 && |b| > 1 ==> a[1] == b[1])
    && (|a| > 5 && |b| > 5 ==> a[4] == b[4] && a[5] == b[5])
  }

  lemma FirstCommandsDiffer(i: nat, j: nat)
    requires i < 4 && i < j < |TABLE|
    ensures !Alike(TABLE[i].cmd, TABLE[j].cmd)
  {
  }

  lemma NextCommandsDiffer(i: nat, j: nat)
    requires 4 <= i < 8 && i < j < |TABLE|
    ensures !Alike(TABLE[i].cmd, TABLE[j].cmd)
  {
  }

  lemma SetCommandsDiffer(i: nat, j: nat)
    requires i < 8 && i < j < |TABLE|
    ensures !Alike(TABLE[i].cmd, TABLE[j].cmd)
  {
    hide Alike;
    if i < 4 {
      FirstCommandsDiffer(i, j);
    } else {
      NextCommandsDiffer(i, j);
    }
  }

  lemma OtherCommandsDiffer(i: nat, j: nat)
    requires 8 <= i < j < |TABLE| && Alike(TABLE[i].cmd, TABLE[j].cmd)
    ensures i == 8 && j == 9
  {
  }

  lemma SameInitials(a: string, b: string, line: string)
    requires a <= line && b <= line
    ensures Alike(a, b)
  {
  }

  // ---------------------------------------------------------------- printing a command

  function Show(a: Arg): string {
    match a
    case Null => ""
    case Text(t) => t
    case Number(v) => Decimal(v)
  }

  function PrintArgs(args: seq<Arg>): string {
    if args == [] then [] else " " + Show(args[0]) + PrintArgs(args[1..])
  }

  /** A command as a client writes it. */
  function Print(e: Entry, args: seq<Arg>): string {
    e.cmd + PrintArgs(args)
  }

  /** The arguments have the kinds the table asks for. */
  predicate Typed(specs: string, args: seq<Arg>) {
    |args| == |specs| && forall i :: 0 <= i < |specs| ==> if specs[i] == 's' then args[i].Text? else args[i].Number?
  }

  predicate GoodArg(a: Arg, last: bool) {
    match a
    case Null => false
    case Text(t) => t != [] && t[0] != ' ' && (last || ' ' !in t)
    case Number(v) => -0x8000_0000 <= v < 0x8000_0000
  }

  /** What can be printed and read back: no string is empty or begins with a space, only a last
      string has spaces in it, and numbers fit an int. */
  predicate Printable(args: seq<Arg>) {
    forall i :: 0 <= i < |args| ==> GoodArg(args[i], i == |args| - 1)
  }

  lemma AfterOneSpace(t: string)
    requires t != [] && t[0] != ' '
    ensures AfterSpaces(" " + t) == t
  {
    var s := " " + t;
    assert s[1..] == t;
  }

  lemma PrintArgsStop(args: seq<Arg>)
    ensures StopsNumber(PrintArgs(args))
  {
  }

  lemma {:induction false} WordBefore(w: string, rest: string)
    requires ' ' !in w && StopsNumber(rest)
    ensures WordLength(w + rest) == |w|
    decreases |w|
  {
    if w == [] {
      assert w + rest == rest;
    } else {
      assert (w + rest)[1..] == w[1..] + rest;
      WordBefore(w[1..], rest);
    }
  }

  lemma ShownStart(a: Arg, rest: string)
    requires GoodArg(a, true)
    ensures Show(a) != [] && (Show(a) + rest)[0] != ' '
  {
  }

  /** A printed argument is read back, with the printed rest left. */
  lemma FirstPrinted(a: Arg, kind: char, rest: string)
    requires GoodArg(a, rest == []) && (if kind == 's' then a.Text? else a.Number?) && StopsNumber(rest)
    ensures var f := FirstArg(" " + Show(a) + rest, kind, rest == []);
            f.Read? && f.arg == a && (rest != [] ==> f.rest == rest)
  {
    hide Strtol, AfterSpaces, WordLength, Decimal;
    var t := Show(a) + rest;
    ShownStart(a, rest);
    assert " " + Show(a) + rest == " " + t;
    AfterOneSpace(t);
    assert t[|Show(a)|..] == rest && t[..|Show(a)|] == Show(a);
    if a.Number? {
      DecimalRead(a.value, rest);
    } else if rest == [] {
      assert t == a.text;
    } else {
      WordBefore(a.text, rest);
    }
  }

  /** Printing arguments and parsing them gives them back. */
  lemma {:induction false} PrintedIsRead(specs: string, args: seq<Arg>)
    requires Typed(specs, args) && Printable(args)
    ensures ParseArgs(PrintArgs(args), specs) == Parsed(args)
    decreases |args|
  {
    hide FirstArg, GoodArg, Show;
    if args != [] {
      var rest := PrintArgs(args[1..]);
      PrintArgsStop(args[1..]);
      FirstPrinted(args[0], specs[0], rest);
      if |args| > 1 {
        PrintedIsRead(specs[1..], args[1..]);
      }
      assert [args[0]] + args[1..] == args;
    }
  }

  predicate MissingOrGood(a: Arg, last: bool) {
    a.Null? || GoodArg(a, last)
  }

  /** Whatever is read can be printed, unless the argument is missing. */
  lemma FirstIsGood(s: string, kind: char, last: bool)
    requires FirstArg(s, kind, last).Read?
    ensures MissingOrGood(FirstArg(s, kind, last).arg, last)
  {
    hide Strtol;
    var t := AfterSpaces(s);
    if t != [] {
      StrtolFits(t);
      assert WordLength(t) > 0;
    }
  }

  lemma {:induction false} ReadIsPrintable(s: string, specs: string, i: nat)
    requires ParseArgs(s, specs).Parsed?
    ensures var args := ParseArgs(s, specs).args;
            |args| == |specs| && (i < |args| ==> MissingOrGood(args[i], i == |args| - 1))
    decreases |specs|
  {
    hide MissingOrGood, FirstArg;
    if specs != [] {
      FirstIsGood(s, specs[0], |specs| == 1);
      var f := FirstArg(s, specs[0], |specs| == 1);
      ReadIsPrintable(f.rest, specs[1..], if i == 0 then 0 else i - 1);
    }
  }

  /** Arguments of the right kinds survive printing and parsing if and only if they are
      printable. */
  lemma RoundTripIff(specs: string, args: seq<Arg>)
    requires Typed(specs, args)
    ensures ParseArgs(PrintArgs(args), specs) == Parsed(args) <==> Printable(args)
  {
    hide ParseArgs, GoodArg;
    if Printable(args) {
      PrintedIsRead(specs, args);
    } else if ParseArgs(PrintArgs(args), specs) == Parsed(args) {
      forall i | 0 <= i < |args| ensures GoodArg(args[i], i == |args| - 1) {
        ReadIsPrintable(PrintArgs(args), specs, i);
      }
    }
  }

  /** The calls a printed command should lead to: its own, and for paint rect also paint. */
  function CallsOf(e: Entry, args: seq<Arg>): seq<Call> {
    [Call(e.cmd, args)] + if e.cmd == "paint rect" then [Call("paint", [])] else []
  }

  lemma {:induction false} NobodyFrom(line: string, i: nat, from: nat)
    requires i < from <= |TABLE| && TABLE[i].cmd <= line && (i == 8 ==> from > 9)
    ensures DispatchFrom(line, from) == []
    decreases |TABLE| - from
  {
    hide ParseArgs;
    if from < |TABLE| {
      NobodyFrom(line, i, from + 1);
      if TABLE[from].cmd <= line {
        TwoCommands(line, i, from);
      }
    }
  }

  lemma {:induction false} NobodyBefore(line: string, i: nat, from: nat)
    requires from <= i < |TABLE| && TABLE[i].cmd <= line && (i == 9 ==> !(TABLE[8].cmd <= line))
    ensures DispatchFrom(line, from) == DispatchFrom(line, i)
    decreases i - from
  {
    hide ParseArgs;
    if from < i {
      NobodyBefore(line, i, from + 1);
      if TABLE[from].cmd <= line {
        TwoCommands(line, from, i);
      }
    }
  }

  /** What a line that begins with the i-th command leads to. */
  lemma DispatchAt(line: string, i: nat)
    requires i < |TABLE| && TABLE[i].cmd <= line && (i == 9 ==> !(TABLE[8].cmd <= line))
    ensures var o := ParseArgs(line[|TABLE[i].cmd|..], TABLE[i].specs);
            Dispatch(line) == if o.Abandoned? then [] else CallsOf(TABLE[i], o.args)
  {
    hide ParseArgs, DispatchFrom;
    NobodyBefore(line, i, 0);
    DispatchStep(line, i);
    if i == 8 {
      PaintAlso(line);
      NobodyFrom(line, 8, 10);
      DispatchStep(line, 9);
    } else {
      NobodyFrom(line, i, i + 1);
      NameOfRect(i);
    }
  }

  lemma DispatchStep(line: string, i: nat)
    requires i < |TABLE| && TABLE[i].cmd <= line
    ensures var o := ParseArgs(line[|TABLE[i].cmd|..], TABLE[i].specs);
            DispatchFrom(line, i) == if o.Abandoned? then [] else [Call(TABLE[i].cmd, o.args)] + DispatchFrom(line, i + 1)
  {
    hide ParseArgs;
  }

  lemma PaintIsBare()
    ensures TABLE[9].specs == [] && |TABLE[9].cmd| == 5 && |TABLE[8].cmd| == 10
  {
  }

  lemma PaintAlso(line: string)
    requires TABLE[8].cmd <= line
    ensures TABLE[9].cmd <= line && TABLE[9].cmd == "paint" && TABLE[8].cmd == "paint rect"
    ensures ParseArgs(line[|TABLE[9].cmd|..], TABLE[9].specs) == Parsed([])
  {
    assert TABLE[9].cmd <= TABLE[8].cmd;
  }

  lemma NameOfRect(i: nat)
    requires i < |TABLE| && i != 8
    ensures TABLE[i].cmd != "paint rect"
  {
    var c := "paint rect";
    assert |c| == 10 && c[0] == 'p';
  }

  /** A printed command, its arguments of the right kinds, is dispatched to its own handler with
      exactly these arguments if and only if they are printable; paint rect also runs paint. */
  lemma PrintedDispatchIff(i: nat, args: seq<Arg>)
    requires i < |TABLE| && Typed(TABLE[i].specs, args)
    ensures Dispatch(Print(TABLE[i], args)) == CallsOf(TABLE[i], args) <==> Printable(args)
  {
    hide ParseArgs, Dispatch, PrintArgs, Printable;
    var e, line := TABLE[i], Print(TABLE[i], args);
    assert e.cmd <= line && line[|e.cmd|..] == PrintArgs(args);
    PaintIsBare();
    if i == 9 {
      NothingPrinted(args);
    }
    RoundTripIff(e.specs, args);
    DispatchAt(line, i);
    var o := ParseArgs(PrintArgs(args), e.specs);
    if o.Parsed? {
      assert CallsOf(e, o.args)[0] == Call(e.cmd, o.args) && CallsOf(e, args)[0] == Call(e.cmd, args);
    }
  }

  lemma NothingPrinted(args: seq<Arg>)
    requires |args| == 0
    ensures PrintArgs(args) == []
  {
  }

  // -------------------------------------------------------------------- the pipe

  /** The buffer of the reader, with room for a terminator. */
  const PIPE_BUF := 4096

  /** The length of what fgets returns: up to and including a newline, at most k characters. */
  function LineEnd(s: string, k: nat): (n: nat)
    ensures n <= |s| && n <= k && (s != [] && k > 0 ==> n > 0)
  {
    if s == [] || k == 0 then 0 else if s[0] == '\n' then 1 else 1 + LineEnd(s[1..], k - 1)
  }

  /** The handler calls for everything written to the pipe.  The last character of what fgets
      returns is dropped, newline or not. */
  function Served(stream: string): seq<Call>
    decreases |stream|
  {
    if stream == [] then []
    else
      var n := LineEnd(stream, PIPE_BUF - 1);
      Dispatch(stream[..n - 1]) + Served(stream[n..])
  }

  lemma {:induction false} LineEndAt(line: string, rest: string, k: nat)
    requires '\n' !in line && |line| < k
    ensures LineEnd(line + "\n" + rest, k) == |line| + 1
    decreases |line|
  {
    var s := line + "\n" + rest;
    if line != [] {
      assert s[1..] == line[1..] + "\n" + rest;
      LineEndAt(line[1..], rest, k - 1);
    }
  }

  lemma ServedLine(line: string, rest: string)
    requires '\n' !in line && |line| < PIPE_BUF - 1
    ensures Served(line + "\n" + rest) == Dispatch(line) + Served(rest)
  {
    hide Dispatch;
    LineEndAt(line, rest, PIPE_BUF - 1);
    var s := line + "\n" + rest;
    assert s[..|line|] == line && s[|line| + 1..] == rest;
  }

  lemma {:induction false} NoLineEnd(s: string, k: nat)
    requires k <= |s| && '\n' !in s[..k]
    ensures LineEnd(s, k) == k
    decreases k
  {
    if k > 0 {
      assert s[..k][0] == s[0] && s[..k][1..] == s[1..][..k - 1];
      NoLineEnd(s[1..], k - 1);
    }
  }

  /** A line of 4095 characters or more is read in pieces, and each piece loses its last
      character. */
  lemma LongLineIsCut(stream: string)
    requires |stream| >= 4095 && '\n' !in stream[..4095]
    ensures Served(stream) == Dispatch(stream[..4094]) + Served(stream[4095..])
  {
    hide Dispatch;
    NoLineEnd(stream, 4095);
  }

  /** A command to be sent: its place in the table and its arguments. */
  datatype Request = Request(i: nat, args: seq<Arg>)

  function LineOf(r: Request): string
    requires r.i < |TABLE|
  {
    Print(TABLE[r.i], r.args)
  }

  /** What printing with a text as the format gives: any conversion but %% asks for an argument
      that is not there. */
  datatype Output = Undefined | Bytes(text: string)

  function Formatted(s: string): (out: Output)
    ensures out.Bytes? ==> |out.text| <= |s| && (|out.text| == |s| <==> '%' !in s)
  {
    if s == [] then Bytes([])
    else if s[0] != '%' then
      var rest := Formatted(s[1..]);
      if rest.Bytes? then Bytes([s[0]] + rest.text) else Undefined
    else if |s| > 1 && s[1] == '%' then
      var rest := Formatted(s[2..]);
      if rest.Bytes? then Bytes("%" + rest.text) else Undefined
    else Undefined
  }

  /** A text with every percent sign written twice. */
  function Doubled(s: string): (t: string)
    ensures |t| >= |s|
  {
    if s == [] then [] else (if s[0] == '%' then "%%" else [s[0]]) + Doubled(s[1..])
  }

  function CutText(text: string): string {
    if |text| > 255 then text[..255] else text
  }

  /** fbsplash_send: the text is cut to 255 characters and then used as a format. */
  function Sent(text: string): Output {
    Formatted(CutText(text))
  }

  lemma {:induction false} DoubledFormat(s: string)
    ensures Formatted(Doubled(s)) == Bytes(s)
    decreases |s|
  {
    if s != [] {
      DoubledFormat(s[1..]);
      FormattedNext(s[0], Doubled(s[1..]));
      assert [s[0]] + s[1..] == s;
    }
  }

  lemma FormattedNext(c: char, t: string)
    requires Formatted(t).Bytes?
    ensures Formatted((if c == '%' then "%%" else [c]) + t) == Bytes([c] + Formatted(t).text)
  {
    if c == '%' {
      var u := "%%" + t;
      assert u[0] == '%' && u[1] == '%' && u[2..] == t;
    } else {
      var u := [c] + t;
      assert u[0] == c && u[1..] == t;
    }
  }

  lemma {:induction false} OnlyDoubled(t: string)
    requires Formatted(t).Bytes?
    ensures t == Doubled(Formatted(t).text)
    decreases |t|
  {
    if t != [] {
      OnlyDoubled(if t[0] == '%' then t[2..] else t[1..]);
    }
  }

  /** Exactly the texts with doubled percent signs, cut or not, are sent as s. */
  lemma SentIff(text: string, s: string)
    ensures Sent(text) == Bytes(s) <==> CutText(text) == Doubled(s)
  {
    DoubledFormat(s);
    if Sent(text) == Bytes(s) {
      OnlyDoubled(CutText(text));
    }
  }

  /** A text arrives as it is if and only if it is short enough and has no percent sign. */
  lemma SentWholeIff(text: string)
    ensures Sent(text) == Bytes(text) <==> |text| <= 255 && '%' !in text
  {
    if '%' !in text {
      NoPercent(CutText(text));
    }
  }

  lemma {:induction false} NoPercent(s: string)
    requires '%' !in s
    ensures Formatted(s) == Bytes(s)
    decreases |s|
  {
    if s != [] {
      NoPercent(s[1..]);
    }
  }

  predicate Sendable(r: Request) {
    && r.i < |TABLE| && Typed(TABLE[r.i].specs, r.args) && Printable(r.args)
    && '\n' !in LineOf(r) && Sent(LineOf(r) + "\n") == Bytes(LineOf(r) + "\n")
  }

  predicate AllSendable(rs: seq<Request>) {
    forall k {:trigger rs[k]} :: 0 <= k < |rs| ==> Sendable(rs[k])
  }

  /** What a client writes for a list of requests. */
  function Written(rs: seq<Request>): string
    requires AllSendable(rs)
  {
    if rs == [] then [] else Sent(LineOf(rs[0]) + "\n").text + Written(rs[1..])
  }

  function AllCalls(rs: seq<Request>): seq<Call>
    requires AllSendable(rs)
  {
    if rs == [] then [] else CallsOf(TABLE[rs[0].i], rs[0].args) + AllCalls(rs[1..])
  }

  /** From the client to the handlers: any number of sendable requests leads to exactly their
      calls, in order. */
  lemma {:induction false} RequestsArrive(rs: seq<Request>)
    requires AllSendable(rs)
    ensures Served(Written(rs)) == AllCalls(rs)
    decreases |rs|
  {
    hide LineOf, Sent, Dispatch, CallsOf;
    if rs != [] {
      var r := rs[0];
      Short(r);
      RequestsArrive(rs[1..]);
      ServedLine(LineOf(r), Written(rs[1..]));
      RequestDispatch(r);
    }
  }

  lemma Short(r: Request)
    requires Sendable(r)
    ensures |LineOf(r)| < 255 && '\n' !in LineOf(r) && Sent(LineOf(r) + "\n") == Bytes(LineOf(r) + "\n")
  {
    SentWholeIff(LineOf(r) + "\n");
  }

  lemma RequestDispatch(r: Request)
    requires Sendable(r)
    ensures Dispatch(LineOf(r)) == CallsOf(TABLE[r.i], r.args)
  {
    hide Dispatch, CallsOf, Print, Sent;
    PrintedDispatchIff(r.i, r.args);
  }

  /** A message that is too long loses its newline, so the next message becomes part of it. */
  lemma LongMessageSwallowsNext(line: string, next: string, rest: string)
    requires |line| >= 255 && '\n' !in line && '%' !in line && '\n' !in next && |next| < 255
    ensures Sent(line + "\n") == Bytes(line[..255])
    ensures Served(Sent(line + "\n").text + next + "\n" + rest) == Dispatch(line[..255] + next) + Served(rest)
  {
    hide Dispatch, Served;
    assert (line + "\n")[..255] == line[..255];
    NoPercent(line[..255]);
    ServedLine(line[..255] + next, rest);
  }
}
