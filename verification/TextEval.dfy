/**
  Evaluation of theme texts: escapes and the $progress variable (core/src/ttf.c, text_eval).
 */
module TextEval {
  import opened Rects
  import opened Decimals

  const VARIABLE := "$progress"

  /** strncmp of the text with the variable name. */
  predicate AtVariable(s: string): (b: bool)
    ensures b ==> |s| >= |VARIABLE|
  {
    |s| >= |VARIABLE| && s[..|VARIABLE|] == VARIABLE
  }

  /** The number of occurrences strstr finds one after the other. */
  function Occurrences(s: string): nat {
    if s == [] then 0 else (if AtVariable(s) then 1 else 0) + Occurrences(s[1..])
  }

  /** The evaluated text, where `value` is printed for the variable.  A backslash makes the next
      character literal, except that n becomes a newline; a final lone backslash is dropped. */
  function Eval(s: string, value: string): string
    decreases |s|
  {
    if s == [] then []
    else if s[0] == '\\' then
      if |s| == 1 then []
      else [if s[1] == 'n' then '\n' else s[1]] + Eval(s[2..], value)
    else if AtVariable(s) then value + Eval(s[|VARIABLE|..], value)
    else [s[0]] + Eval(s[1..], value)
  }

  /** The percentage printed for a progress value. */
  function Percent(progress: int): int {
    CDiv(progress * 100, PROGRESS_MAX)
  }

  lemma PercentRange(p: int, q: int)
    requires 0 <= p <= q <= PROGRESS_MAX
    ensures 0 <= Percent(p) <= Percent(q) <= 100
    ensures Percent(0) == 0 && Percent(PROGRESS_MAX) == 100
  {
    CDivMonotone(p * 100, q * 100, PROGRESS_MAX);
    CDivMonotone(q * 100, 100 * PROGRESS_MAX, PROGRESS_MAX);
    CDivExact(100, PROGRESS_MAX);
    CDivMonotone(0, p * 100, PROGRESS_MAX);
  }

  /** The percentage is the progress in hundredths of 65535, rounded toward zero. */
  lemma PercentIsShare(p: int)
    ensures IsQuotient(Percent(p), p * 100, 65535)
  {
    CDivIs(p * 100, PROGRESS_MAX);
  }

  // --------------------------------------------------------------------- escaping

  function EscapeChar(c: char): string {
    if c == '\\' then "\\\\" else if c == '\n' then "\\n" else if c == '$' then "\\$" else [c]
  }

  function Escape(s: string): string {
    if s == [] then [] else EscapeChar(s[0]) + Escape(s[1..])
  }

  lemma EvalEscapedChar(c: char, rest: string, value: string)
    ensures Eval(EscapeChar(c) + rest, value) == [c] + Eval(rest, value)
  {
    var t := EscapeChar(c) + rest;
    if |EscapeChar(c)| == 2 {
      assert t[0] == '\\' && t[1] == EscapeChar(c)[1] && t[2..] == rest;
    } else {
      assert t[0] == c && t[1..] == rest;
    }
  }

  /** Evaluation takes an escaped prefix back to the original characters and then goes on with
      the rest of the text. */
  lemma {:induction false} EvalEscapedPrefix(s: string, rest: string, value: string)
    ensures Eval(Escape(s) + rest, value) == s + Eval(rest, value)
  {
    hide Eval, EscapeChar;
    if s == [] {
      assert Escape(s) + rest == rest;
    } else {
      assert Escape(s) + rest == EscapeChar(s[0]) + (Escape(s[1..]) + rest);
      EvalEscapedChar(s[0], Escape(s[1..]) + rest, value);
      EvalEscapedPrefix(s[1..], rest, value);
    }
  }

  /** text_eval undoes escaping, for every string. */
  lemma EvalUndoesEscape(s: string, value: string)
    ensures Eval(Escape(s), value) == s
  {
    EvalEscapedPrefix(s, [], value);
    assert Escape(s) + [] == Escape(s);
  }

  /** The variable between two escaped strings is replaced, and nothing else is. */
  lemma EvalReplacesVariable(a: string, b: string, value: string)
    ensures Eval(Escape(a) + VARIABLE + Escape(b), value) == a + value + b
  {
    hide Escape;
    EvalEscapedPrefix(a, VARIABLE + Escape(b), value);
    EvalUndoesEscape(b, value);
    var t := VARIABLE + Escape(b);
    assert Escape(a) + VARIABLE + Escape(b) == Escape(a) + t;
    assert t[..|VARIABLE|] == VARIABLE && t[|VARIABLE|..] == Escape(b) && t[0] == '$';
  }

  /** A text without backslash and without the variable stays as it is. */
  lemma {:induction false} PlainStays(s: string, value: string)
    requires '\\' !in s && Occurrences(s) == 0
    ensures Eval(s, value) == s
    decreases |s|
  {
    if s != [] {
      PlainStays(s[1..], value);
    }
  }

  /** A lone backslash at the end is dropped. */
  lemma LoneBackslash(s: string, value: string)
    ensures Eval(Escape(s) + "\\", value) == s
  {
    hide Escape;
    EvalEscapedPrefix(s, "\\", value);
    assert s + [] == s;
  }

  // -------------------------------------------------------------------- allocation

  lemma {:induction false} OccurrencesSuffix(s: string, k: nat)
    requires k <= |s|
    ensures Occurrences(s[k..]) <= Occurrences(s)
    decreases k
  {
    if k > 0 {
      OccurrencesSuffix(s[1..], k - 1);
      assert s[1..][k - 1..] == s[k..];
    }
  }

  lemma OccurrencesSkip(s: string)
    requires AtVariable(s)
    ensures Occurrences(s[|VARIABLE|..]) + 1 <= Occurrences(s)
  {
    OccurrencesSuffix(s[1..], |VARIABLE| - 1);
    assert s[1..][|VARIABLE| - 1..] == s[|VARIABLE|..];
  }

  /** What the allocation leaves for the rest of the text, wherever the walk is. */
  function Room(s: string): (r: nat)
    ensures r >= |s|
  {
    |s| + 3 * Occurrences(s)
  }

  /** A value of at most twelve characters fits where the variable stood, with room to spare. */
  lemma {:induction false} EvalFits(s: string, value: string)
    requires |value| <= 12
    ensures |Eval(s, value)| <= Room(s)
    decreases |s|
  {
    if s == [] {
    } else if s[0] == '\\' {
      if |s| > 1 {
        EvalFits(s[2..], value);
        OccurrencesSuffix(s, 2);
      }
    } else if AtVariable(s) {
      EvalFits(s[|VARIABLE|..], value);
      OccurrencesSkip(s);
    } else {
      EvalFits(s[1..], value);
      OccurrencesSuffix(s, 1);
    }
  }

  /** For a value of twelve characters nothing is allocated in vain. */
  lemma RoomIsTight(value: string)
    requires |value| == 12
    ensures |Eval(VARIABLE, value)| == Room(VARIABLE)
  {
    hide Occurrences;
    assert AtVariable(VARIABLE) && VARIABLE[|VARIABLE|..] == [] && VARIABLE[0] == '$';
    NoMore();
  }

  lemma NoMore()
    ensures Occurrences(VARIABLE) == 1
  {
    var s := VARIABLE;
    assert forall k :: 1 <= k <= |s| ==> |s[k..]| < |VARIABLE|;
    ShortHasNone(s[1..]);
  }

  lemma {:induction false} ShortHasNone(s: string)
    requires |s| < |VARIABLE|
    ensures Occurrences(s) == 0
    decreases |s|
  {
    if s != [] {
      ShortHasNone(s[1..]);
    }
  }

  // ---------------------------------------------------------------------- the loops

  /** strstr for the variable name, from position p on: the first occurrence, or the length. */
  method FindVariable(txt: string, p: nat) returns (t: nat)
    requires p <= |txt|
    ensures p <= t <= |txt|
    ensures t < |txt| ==> AtVariable(txt[t..]) && Occurrences(txt[p..]) == 1 + Occurrences(txt[t + 1..])
    ensures t == |txt| ==> Occurrences(txt[p..]) == 0
  {
    t := p;
    while t < |txt| && !AtVariable(txt[t..])
      invariant p <= t <= |txt|
      invariant Occurrences(txt[p..]) == Occurrences(txt[t..])
    {
      assert txt[t..][1..] == txt[t + 1..];
      t := t + 1;
    }
    if t < |txt| {
      assert txt[t..][1..] == txt[t + 1..];
    }
  }

  /** The first loop of text_eval: the length to allocate, without the terminator. */
  method OutputLength(txt: string) returns (len: nat)
    ensures len == Room(txt)
  {
    hide Occurrences, AtVariable;
    len := |txt|;
    var p := 0;
    var t := FindVariable(txt, p);
    assert txt[0..] == txt;
    while t < |txt|
      invariant p <= t <= |txt|
      invariant len + 3 * Occurrences(txt[p..]) == Room(txt)
      invariant t < |txt| ==> AtVariable(txt[t..]) && Occurrences(txt[p..]) == 1 + Occurrences(txt[t + 1..])
      invariant t == |txt| ==> Occurrences(txt[p..]) == 0
      decreases |txt| - t
    {
      len := len + 3;
      p := t + 1;
      t := FindVariable(txt, p);
    }
  }

  /** sprintf: the characters and a terminator. */
  method Sprintf(a: array<char>, d: nat, value: string)
    requires d + |value| < a.Length
    modifies a
    ensures a[..d] == old(a[..d]) && a[d..d + |value|] == value && a[d + |value|] == '\0'
  {
    for k := 0 to |value|
      invariant a[..d] == old(a[..d])
      invariant forall m :: 0 <= m < k ==> a[d + m] == value[m]
    {
      a[d + k] := value[k];
    }
    a[d + |value|] := '\0';
  }

  /** text_eval: writes the evaluated text and a terminator into a fresh buffer of the computed
      size.  No write leaves the buffer, whatever the progress value, as long as it is a 32-bit
      integer: its percentage prints in at most 11 characters. */
  method TextEval(txt: string, percent: int) returns (ret: array<char>, d: nat)
    requires -0x8000_0000 <= percent < 0x8000_0000
    ensures fresh(ret) && ret.Length == Room(txt) + 1
    ensures d < ret.Length && ret[..d] == Eval(txt, Decimal(percent)) && ret[d] == '\0'
  {
    hide Eval, Room, AtVariable, Decimal;
    var value := Decimal(percent);
    DecimalLength(percent);
    var len := OutputLength(txt);
    ret := new char[len + 1];
    d := 0;
    var p := 0;
    ghost var done: string := [];
    assert txt[0..] == txt && done + Eval(txt, value) == Eval(txt, value);
    while p < |txt|
      invariant p <= |txt| && d == |done| && d + Room(txt[p..]) <= len
      invariant ret[..d] == done && done + Eval(txt[p..], value) == Eval(txt, value)
      decreases |txt| - p
    {
      if txt[p] == '\\' && p + 1 == |txt| {
        p := p + 1;
        StepEnd("\\", value, done);
        assert txt[p - 1..] == "\\" && txt[p..] == [];
        StepEnd([], value, done);
      } else {
        p, d, done := EvalStep(txt, p, d, ret, value, len, done);
      }
    }
    StepEnd(txt[p..], value, done);
    ret[d] := '\0';
  }

  /** The body of the evaluation loop, except for a final lone backslash. */
  method EvalStep(txt: string, p: nat, d: nat, ret: array<char>, value: string, len: nat, ghost done: string)
    returns (p': nat, d': nat, ghost done': string)
    requires p < |txt| && (txt[p] == '\\' ==> p + 1 < |txt|) && |value| <= 12
    requires ret.Length == len + 1 && d == |done| && d + Room(txt[p..]) <= len
    requires ret[..d] == done
    modifies ret
    ensures p < p' <= |txt| && d' == |done'| && d' + Room(txt[p'..]) <= len
    ensures ret[..d'] == done' && done' + Eval(txt[p'..], value) == done + Eval(txt[p..], value)
  {
    hide Eval, Room, AtVariable;
    ghost var rest := txt[p..];
    if txt[p] == '\\' {
      StepEscape(rest, value, done);
      var c := if txt[p + 1] == 'n' then '\n' else txt[p + 1];
      ret[d] := c;
      done' := done + [c];
      assert rest[2..] == txt[p + 2..];
      p', d' := p + 2, d + 1;
    } else if AtVariable(txt[p..]) {
      StepVariable(rest, value, done);
      Sprintf(ret, d, value);
      assert ret[..d + |value|] == ret[..d] + ret[d..d + |value|];
      done' := done + value;
      assert rest[|VARIABLE|..] == txt[p + |VARIABLE|..];
      p', d' := p + |VARIABLE|, d + |value|;
    } else {
      StepPlain(rest, value, done);
      ret[d] := txt[p];
      done' := done + [txt[p]];
      assert rest[1..] == txt[p + 1..];
      p', d' := p + 1, d + 1;
    }
  }

  lemma StepEnd(s: string, value: string, done: string)
    requires s == [] || s == "\\"
    ensures done + Eval(s, value) == done && Room([]) == 0
  {
    assert done + [] == done;
  }

  lemma StepEscape(s: string, value: string, done: string)
    requires |s| > 1 && s[0] == '\\'
    ensures done + Eval(s, value) == done + [if s[1] == 'n' then '\n' else s[1]] + Eval(s[2..], value)
    ensures 1 + Room(s[2..]) <= Room(s)
  {
    OccurrencesSuffix(s, 2);
  }

  lemma EvalAtVariable(s: string, value: string)
    requires AtVariable(s)
    ensures Eval(s, value) == value + Eval(s[|VARIABLE|..], value)
  {
    assert s[0] == s[..|VARIABLE|][0] == '$';
  }

  lemma StepVariable(s: string, value: string, done: string)
    requires AtVariable(s) && |value| <= 12
    ensures done + Eval(s, value) == done + value + Eval(s[|VARIABLE|..], value)
    ensures |value| + Room(s[|VARIABLE|..]) <= Room(s)
  {
    hide Occurrences, Eval;
    EvalAtVariable(s, value);
    OccurrencesSkip(s);
    assert done + (value + Eval(s[|VARIABLE|..], value)) == done + value + Eval(s[|VARIABLE|..], value);
  }

  lemma StepPlain(s: string, value: string, done: string)
    requires |s| > 0 && s[0] != '\\' && !AtVariable(s)
    ensures done + Eval(s, value) == done + [s[0]] + Eval(s[1..], value)
    ensures 1 + Room(s[1..]) <= Room(s)
  {
    OccurrencesSuffix(s, 1);
  }
}
