/**
  The command reader as the program has it: a character buffer that is cut into C strings in
  place, and arguments that point into it (core/src/daemon_cmd.c, daemon_comm).
 */
module Fifo {
  import opened Commands

  /** An element of the args array. */
  datatype Pointer = NullPtr | InBuf(at: nat) | InInt(value: int)

  /** What the pointer p, to a string that ends at e, stands for in buffer b. */
  predicate Points(b: seq<char>, p: Pointer, a: Arg, e: nat) {
    match a
    case Null => p == NullPtr
    case Number(v) => p == InInt(v)
    case Text(t) => p.InBuf? && p.at <= e < |b| && b[p.at..e] == t && '\0' !in t
  }

  /** No terminator among the n characters of a buffer from k on, and one right after them. */
  predicate CString(b: seq<char>, k: nat, n: nat) {
    k <= n < |b| && b[n] == '\0' && forall i :: k <= i < n ==> b[i] != '\0'
  }

  /** The buffer b0 after the spaces from k0 up to k have been overwritten. */
  ghost predicate Skipped(b0: seq<char>, b: seq<char>, k0: nat, k: nat, n: nat) {
    && k0 <= k <= n < |b0| == |b| && AfterSpaces(b0[k0..n]) == AfterSpaces(b0[k..n])
    && b[..k0] == b0[..k0] && b[k..] == b0[k..]
    && (k0 < k ==> b[k0] == '\0')
  }

  lemma SameSuffix(b: seq<char>, b0: seq<char>, k: nat, n: nat)
    requires k <= n < |b| == |b0| && b[k..] == b0[k..]
    ensures b[k..n] == b0[k..n] && b[n] == b0[n] && b[k] == b0[k]
    ensures CString(b0, k, n) ==> CString(b, k, n)
    ensures k < n ==> b0[k..n][0] == b[k]
  {
    assert forall i :: k <= i < |b| ==> b[i] == b[k..][i - k] && b0[i] == b0[k..][i - k];
  }

  lemma Overwrite(b: seq<char>, k0: nat, k: nat)
    requires k0 <= k < |b|
    ensures b[k := '\0'][..k0] == b[..k0] && b[k := '\0'][k + 1..] == b[k + 1..]
    ensures b[k := '\0'][k0] == (if k0 == k then '\0' else b[k0])
  {
  }

  lemma DropOne(b: seq<char>, b0: seq<char>, k: nat)
    requires k < |b| == |b0| && b[k..] == b0[k..]
    ensures b[k + 1..] == b0[k + 1..]
  {
    assert b[k..][1..] == b[k + 1..] && b0[k..][1..] == b0[k + 1..];
  }

  lemma SpaceSkipped(b0: seq<char>, k: nat, n: nat)
    requires k < n < |b0| && b0[k] == ' '
    ensures AfterSpaces(b0[k..n]) == AfterSpaces(b0[k + 1..n])
  {
    assert b0[k..n][1..] == b0[k + 1..n];
  }

  lemma SkippedNext(b0: seq<char>, b: seq<char>, k0: nat, k: nat, n: nat)
    requires Skipped(b0, b, k0, k, n) && k < n && b[k] == ' '
    ensures Skipped(b0, b[k := '\0'], k0, k + 1, n)
  {
    hide AfterSpaces, CString;
    SameSuffix(b, b0, k, n);
    SpaceSkipped(b0, k, n);
    Overwrite(b, k0, k);
    DropOne(b, b0, k);
  }

  lemma NoSpaceAhead(s: string)
    requires s == [] || s[0] != ' '
    ensures AfterSpaces(s) == s
  {
  }

  lemma CStringLater(b: seq<char>, k0: nat, k: nat, n: nat)
    requires CString(b, k0, n) && k0 <= k <= n
    ensures CString(b, k, n)
  {
  }

  lemma SkippedEnd(b0: seq<char>, b: seq<char>, k0: nat, k: nat, n: nat)
    requires CString(b0, k0, n) && Skipped(b0, b, k0, k, n) && b[k] != ' '
    ensures CString(b, k, n) && b[..k0] == b0[..k0] && b[k..] == b0[k..]
    ensures b[k..n] == AfterSpaces(b0[k0..n])
    ensures b[k0] != ' ' && (b0[k0] == ' ' || b0[k0] == '\0' ==> b[k0] == '\0')
  {
    hide CString, AfterSpaces;
    CStringLater(b0, k0, k, n);
    SameSuffix(b, b0, k, n);
    NoSpaceAhead(b0[k..n]);
  }

  lemma SkippedStart(b0: seq<char>, k0: nat, n: nat)
    requires CString(b0, k0, n)
    ensures Skipped(b0, b0, k0, k0, n)
  {
  }

  lemma InsideYet(b0: seq<char>, b: seq<char>, k0: nat, k: nat, n: nat)
    requires CString(b0, k0, n) && Skipped(b0, b, k0, k, n) && b[k] == ' '
    ensures k < n
  {
    SameSuffix(b, b0, k, n);
  }

  /** Overwrites the spaces at k0 with terminators and stops at the first other character. */
  method SkipSpaces(buf: array<char>, k0: nat, n: nat) returns (k: nat)
    requires CString(buf[..], k0, n)
    modifies buf
    ensures k0 <= k <= n && Skipped(old(buf[..]), buf[..], k0, k, n) && buf[..][k] != ' '
  {
    hide AfterSpaces, Skipped;
    k := k0;
    ghost var b0 := buf[..];
    SkippedStart(b0, k0, n);
    while buf[k] == ' '
      invariant k0 <= k <= n && Skipped(b0, buf[..], k0, k, n)
      decreases n - k
    {
      ghost var b := buf[..];
      InsideYet(b0, b, k0, k, n);
      SkippedNext(b0, b, k0, k, n);
      buf[k] := '\0';
      assert buf[..] == b[k := '\0'];
      k := k + 1;
    }
  }

  /** Walks to the end of the word at k0: a space, or the end of the text. */
  method SkipWord(buf: array<char>, k0: nat, n: nat) returns (k: nat)
    requires CString(buf[..], k0, n)
    ensures k == k0 + WordLength(buf[k0..n]) <= n && (k == n || buf[k] == ' ')
  {
    k := k0;
    while buf[k] != ' ' && buf[k] != '\0'
      invariant k0 <= k <= n && WordLength(buf[k0..n]) == k - k0 + WordLength(buf[k..n])
      decreases n - k
    {
      assert buf[k..n][1..] == buf[k + 1..n];
      k := k + 1;
    }
    assert k < n ==> buf[k..n][0] == buf[k];
  }

  /** The string ends in the buffer where it should. */
  predicate Closed(b: seq<char>, p: Pointer, a: Arg, e: nat) {
    Points(b, p, a, e) && (a.Text? ==> b[e] == '\0')
  }

  /** A pointer to a string that is still open at k, or already closed before. */
  predicate Closing(b: seq<char>, p: Pointer, a: Arg, e: nat, k: nat)
  {
    Points(b, p, a, e) && (a.Text? ==> b[e] == '\0' || (e == k && b[e] == ' '))
  }

  /** What one round of the argument loop has done to the buffer b0. */
  ghost predicate RoundDone(b0: seq<char>, b: seq<char>, k0: nat, k: nat, n: nat) {
    && k0 <= k && CString(b, k, n) && |b| == |b0| && b[..k0] == b0[..k0]
    && b[k0] != ' ' && (b0[k0] == ' ' || b0[k0] == '\0' ==> b[k0] == '\0')
  }

  lemma RoundAt(b0: seq<char>, b: seq<char>, k0: nat, at: nat, k: nat, n: nat)
    requires CString(b0, k0, n) && Skipped(b0, b, k0, at, n) && b[at] != ' ' && at <= k <= n
    ensures RoundDone(b0, b, k0, k, n) && b[at..n] == AfterSpaces(b0[k0..n]) && b[n] == '\0' && '\0' !in b[at..n]
  {
    hide AfterSpaces;
    SkippedEnd(b0, b, k0, at, n);
  }

  lemma Slices(b: seq<char>, at: nat, k: nat, n: nat)
    requires at <= k <= n < |b|
    ensures b[at..n][..k - at] == b[at..k] && b[at..n][k - at..] == b[k..n]
  {
  }

  lemma FirstText(s: string, t: string, last: bool)
    requires t == AfterSpaces(s) && t != []
    ensures FirstArg(s, 's', last) == Read(Text(if last then t else t[..WordLength(t)]), t[WordLength(t)..])
  {
  }

  lemma StringPoints(b: seq<char>, at: nat, k: nat, n: nat, t: string, last: bool)
    requires at <= k <= n < |b| && b[n] == '\0' && (k == n || b[k] == ' ') && b[at..n] == t && '\0' !in t
    ensures var a := Text(if last then t else t[..k - at]);
            Closing(b, InBuf(at), a, if last then n else k, k) && (last ==> Closed(b, InBuf(at), a, n))
  {
    Slices(b, at, k, n);
  }

  /** After the spaces: a string argument. */
  lemma TextRound(b: seq<char>, s: string, t: string, at: nat, k: nat, n: nat, last: bool)
    requires at < n < |b| && b[n] == '\0' && t == b[at..n] && t == AfterSpaces(s) && '\0' !in t
    requires k == at + WordLength(t) <= n && (k == n || b[k] == ' ')
    ensures var f := FirstArg(s, 's', last);
            && f.Read? && b[k..n] == f.rest && Closing(b, InBuf(at), f.arg, if last then n else k, k)
            && (last ==> Closed(b, InBuf(at), f.arg, n))
  {
    hide *;
    Slices(b, at, k, n);
    FirstText(s, t, last);
    StringPoints(b, at, k, n, t, last);
  }

  lemma NumberRound(b: seq<char>, s: string, t: string, at: nat, n: nat, kind: char, last: bool)
    requires at < n < |b| && t == b[at..n] && t == AfterSpaces(s) && kind != 's'
    ensures var (v, used) := Strtol(t);
            && at + used <= n
            && Closing(b, InInt(v), Number(v), at, at + used) && Closed(b, InInt(v), Number(v), at)
            && FirstArg(s, kind, last) == if used == 0 then Unreadable else Read(Number(v), b[at + used..n])
  {
    hide AfterSpaces, Strtol;
    StrtolFits(t);
    Slices(b, at, at + Strtol(t).1, n);
  }

  lemma NothingRound(b0: seq<char>, b: seq<char>, k0: nat, n: nat, kind: char, last: bool)
    requires CString(b0, k0, n) && Skipped(b0, b, k0, n, n) && b[n] != ' '
    ensures RoundDone(b0, b, k0, n, n) && b[n..n] == [] && FirstArg(b0[k0..n], kind, last) == Read(Null, [])
    ensures Closing(b, NullPtr, Null, n, n) && Closed(b, NullPtr, Null, n)
  {
    hide AfterSpaces;
    SkippedEnd(b0, b, k0, n, n);
  }

  /** One round of the argument loop. */
  method ParseOne(buf: array<char>, k0: nat, n: nat, kind: char, last: bool)
    returns (ok: bool, k: nat, p: Pointer, ghost e: nat)
    requires CString(buf[..], k0, n)
    modifies buf
    ensures RoundDone(old(buf[..]), buf[..], k0, k, n)
    ensures var f := FirstArg(old(buf[k0..n]), kind, last);
            && ok == f.Read?
            && (ok ==> buf[k..n] == f.rest && Closing(buf[..], p, f.arg, e, k) && (if last then Closed(buf[..], p, f.arg, e) else e <= k))
  {
    hide FirstArg, Skipped, RoundDone, Strtol, Closing, Closed, AfterSpaces, WordLength;
    ghost var b0 := buf[..];
    var at := SkipSpaces(buf, k0, n);
    AtInside(b0, buf[..], k0, at, n);
    assert buf[..][at..n] == buf[at..n] && b0[k0..n] == old(buf[k0..n]);
    if buf[at] == '\0' {
      NothingRound(b0, buf[..], k0, n, kind, last);
      return true, at, NullPtr, at;
    }
    if kind == 's' {
      k := SkipWord(buf, at, n);
      RoundAt(b0, buf[..], k0, at, k, n);
      TextRound(buf[..], b0[k0..n], buf[at..n], at, k, n, last);
      return true, k, InBuf(at), if last then n else k;
    } else {
      var (v, used) := Strtol(buf[at..n]);
      RoundAt(b0, buf[..], k0, at, at, n);
      NumberRound(buf[..], b0[k0..n], buf[at..n], at, n, kind, last);
      RoundAt(b0, buf[..], k0, at, at + used, n);
      return used > 0, at + used, InInt(v), at;
    }
  }

  lemma AtInside(b0: seq<char>, b: seq<char>, k0: nat, at: nat, n: nat)
    requires CString(b0, k0, n) && Skipped(b0, b, k0, at, n) && b[at] != ' '
    ensures CString(b, at, n) && (b[at] == '\0' <==> at == n)
  {
    SkippedEnd(b0, b, k0, at, n);
  }

  function PrependAll(args: seq<Arg>, o: Outcome): Outcome {
    if o.Parsed? then Parsed(args + o.args) else Abandoned
  }

  lemma PrependMore(args: seq<Arg>, a: Arg, o: Outcome)
    ensures PrependAll(args, Prepend(a, o)) == PrependAll(args + [a], o)
  {
    if o.Parsed? {
      assert args + ([a] + o.args) == args + [a] + o.args;
    }
  }

  /** All pointers found so far, in a buffer whose text from k on is still to be read. */
  ghost predicate AllClosing(b: seq<char>, ps: seq<Pointer>, args: seq<Arg>, es: seq<nat>, k: nat) {
    && |ps| == |args| == |es|
    && forall m :: 0 <= m < |ps| ==> Closing(b, ps[m], args[m], es[m], k) && (args[m].Text? ==> es[m] <= k)
  }

  ghost predicate AllClosed(b: seq<char>, ps: seq<Pointer>, args: seq<Arg>, es: seq<nat>) {
    && |ps| == |args| == |es|
    && forall m :: 0 <= m < |ps| ==> Closed(b, ps[m], args[m], es[m])
  }

  lemma PrefixSlice(b: seq<char>, i: nat, j: nat, k: nat)
    requires i <= j <= k <= |b|
    ensures b[..k][i..j] == b[i..j]
  {
  }

  lemma StillPoints(b: seq<char>, b': seq<char>, p: Pointer, a: Arg, e: nat, k: nat)
    requires Closing(b, p, a, e, k) && (a.Text? ==> e <= k) && k < |b| == |b'| && b'[..k] == b[..k]
    requires b[k] == ' ' || b[k] == '\0' ==> b'[k] == '\0'
    ensures Closed(b', p, a, e)
  {
    if a.Text? {
      PrefixSlice(b', p.at, e, k);
      PrefixSlice(b, p.at, e, k);
      if e < k {
        assert b'[e] == b'[..k][e] && b[e] == b[..k][e];
      }
    }
  }

  /** A round of the loop closes the strings before it. */
  lemma RoundCloses(b: seq<char>, b': seq<char>, ps: seq<Pointer>, args: seq<Arg>, es: seq<nat>, k: nat, k': nat, n: nat)
    requires AllClosing(b, ps, args, es, k) && RoundDone(b, b', k, k', n)
    ensures AllClosed(b', ps, args, es) && forall m :: 0 <= m < |ps| && args[m].Text? ==> es[m] <= k'
  {
    hide Closing, Closed;
    forall m | 0 <= m < |ps| ensures Closed(b', ps[m], args[m], es[m]) {
      StillPoints(b, b', ps[m], args[m], es[m], k);
    }
  }

  /** The argument loop has read the first arguments of s0 and stands at k, or is done. */
  ghost predicate Reading(s0: string, specs: string, b: seq<char>, j: nat, k: nat, n: nat, ps: seq<Pointer>, args: seq<Arg>, es: seq<nat>) {
    && j <= |specs| && CString(b, k, n) && |ps| == j
    && ParseArgs(s0, specs) == PrependAll(args, ParseArgs(b[k..n], specs[j..]))
    && (if j < |specs| then AllClosing(b, ps, args, es, k) else AllClosed(b, ps, args, es))
  }

  lemma ReadingStart(b: seq<char>, k: nat, n: nat, specs: string)
    requires CString(b, k, n)
    ensures Reading(b[k..n], specs, b, 0, k, n, [], [], [])
  {
    hide ParseArgs;
    assert specs[0..] == specs;
    var o := ParseArgs(b[k..n], specs);
    assert o.Parsed? ==> [] + o.args == o.args;
  }

  lemma ParseOneMore(s0: string, specs: string, j: nat, args: seq<Arg>, s: string)
    requires j < |specs| && ParseArgs(s0, specs) == PrependAll(args, ParseArgs(s, specs[j..]))
    ensures var f := FirstArg(s, specs[j], j + 1 == |specs|);
            && (f.Unreadable? ==> ParseArgs(s0, specs) == Abandoned)
            && (f.Read? ==> ParseArgs(s0, specs) == PrependAll(args + [f.arg], ParseArgs(f.rest, specs[j + 1..])))
  {
    hide FirstArg;
    assert specs[j..][1..] == specs[j + 1..];
    var f := FirstArg(s, specs[j], j + 1 == |specs|);
    if f.Read? {
      PrependMore(args, f.arg, ParseArgs(f.rest, specs[j + 1..]));
    }
  }

  lemma PointsMore(b: seq<char>, ps: seq<Pointer>, args: seq<Arg>, es: seq<nat>, p: Pointer, a: Arg, e: nat, k: nat, last: bool)
    requires AllClosed(b, ps, args, es) && (forall m :: 0 <= m < |ps| && args[m].Text? ==> es[m] <= k)
    requires Closing(b, p, a, e, k) && (if last then Closed(b, p, a, e) else e <= k)
    ensures if last then AllClosed(b, ps + [p], args + [a], es + [e]) else AllClosing(b, ps + [p], args + [a], es + [e], k)
  {
    hide Points;
  }

  lemma ReadingNext(s0: string, specs: string, b: seq<char>, b': seq<char>, j: nat, k: nat, k': nat, n: nat,
                    ps: seq<Pointer>, args: seq<Arg>, es: seq<nat>, p: Pointer, a: Arg, e: nat)
    requires j < |specs| && Reading(s0, specs, b, j, k, n, ps, args, es) && RoundDone(b, b', k, k', n)
    requires FirstArg(b[k..n], specs[j], j + 1 == |specs|) == Read(a, b'[k'..n])
    requires Closing(b', p, a, e, k') && (if j + 1 == |specs| then Closed(b', p, a, e) else e <= k')
    ensures Reading(s0, specs, b', j + 1, k', n, ps + [p], args + [a], es + [e])
  {
    hide FirstArg, ParseArgs, PrependAll, Closing, Closed, AllClosed, AllClosing;
    RoundCloses(b, b', ps, args, es, k, k', n);
    ParseOneMore(s0, specs, j, args, b[k..n]);
    PointsMore(b', ps, args, es, p, a, e, k', j + 1 == |specs|);
  }

  lemma ReadingEnd(s0: string, specs: string, b: seq<char>, k: nat, n: nat, ps: seq<Pointer>, args: seq<Arg>, es: seq<nat>)
    requires Reading(s0, specs, b, |specs|, k, n, ps, args, es)
    ensures ParseArgs(s0, specs) == Parsed(args) && AllClosed(b, ps, args, es)
  {
    assert args + [] == args;
  }

  /** The argument loop for one table entry. */
  method ParseEntry(buf: array<char>, k0: nat, n: nat, specs: string)
    returns (ok: bool, ps: seq<Pointer>, ghost args: seq<Arg>, ghost es: seq<nat>)
    requires CString(buf[..], k0, n)
    modifies buf
    ensures buf[..k0] == old(buf[..k0]) && buf[n] == '\0'
    ensures !ok ==> ParseArgs(old(buf[k0..n]), specs) == Abandoned
    ensures ok ==> ParseArgs(old(buf[k0..n]), specs) == Parsed(args) && AllClosed(buf[..], ps, args, es)
  {
    hide ParseArgs, FirstArg, Reading, RoundDone, Closing, Closed, AllClosed;
    ghost var b0, s0 := buf[..], buf[k0..n];
    var k := k0;
    ps, args, es := [], [], [];
    ReadingStart(b0, k0, n, specs);
    assert b0[k0..n] == s0;
    for j := 0 to |specs|
      invariant k0 <= k <= n && buf[..k0] == b0[..k0] && CString(buf[..], k, n)
      invariant Reading(s0, specs, buf[..], j, k, n, ps, args, es)
    {
      ghost var b, at := buf[..], k;
      ghost var f := FirstArg(buf[k..n], specs[j], j + 1 == |specs|);
      assert b[at..n] == buf[k..n];
      var good, p;
      ghost var e;
      good, k, p, e := ParseOne(buf, k, n, specs[j], j + 1 == |specs|);
      RoundKeeps(b, buf[..], k0, at, k, n);
      if !good {
        ReadingBad(s0, specs, b, j, at, n, ps, args, es);
        return false, ps, args, es;
      }
      assert buf[..][k..n] == buf[k..n];
      ReadingNext(s0, specs, b, buf[..], j, at, k, n, ps, args, es, p, f.arg, e);
      ps, args, es := ps + [p], args + [f.arg], es + [e];
    }
    ReadingEnd(s0, specs, buf[..], k, n, ps, args, es);
    ok := true;
  }

  lemma RoundKeeps(b: seq<char>, b': seq<char>, k0: nat, k: nat, k': nat, n: nat)
    requires RoundDone(b, b', k, k', n) && k0 <= k
    ensures b'[..k0] == b[..k0] && CString(b', k', n) && k <= k' && b'[n] == '\0'
  {
    assert b'[..k0] == b'[..k][..k0] && b[..k0] == b[..k][..k0];
  }

  lemma ReadingBad(s0: string, specs: string, b: seq<char>, j: nat, k: nat, n: nat, ps: seq<Pointer>, args: seq<Arg>, es: seq<nat>)
    requires j < |specs| && Reading(s0, specs, b, j, k, n, ps, args, es)
    requires FirstArg(b[k..n], specs[j], j + 1 == |specs|).Unreadable?
    ensures ParseArgs(s0, specs) == Abandoned
  {
    hide ParseArgs, FirstArg;
    ParseOneMore(s0, specs, j, args, b[k..n]);
  }

  lemma NoTerminator(b: seq<char>, at: nat, e: nat, t: string)
    requires at <= e < |b| && b[at..e] == t && '\0' !in t
    ensures forall k :: at <= k < e ==> b[k] != '\0'
  {
    forall k | at <= k < e ensures b[k] != '\0' {
      assert b[k] == t[k - at];
    }
  }

  /** Reading an argument through its pointer. */
  method ReadArg(buf: array<char>, p: Pointer, ghost a: Arg, ghost e: nat) returns (arg: Arg)
    requires Closed(buf[..], p, a, e)
    ensures arg == a
  {
    match p {
      case NullPtr => arg := Null;
      case InInt(v) => arg := Number(v);
      case InBuf(at) =>
        var k := at;
        NoTerminator(buf[..], at, e, a.text);
        while buf[k] != '\0'
          invariant at <= k <= e
          decreases e - k
        {
          k := k + 1;
        }
        arg := Text(buf[at..k]);
    }
  }

  method ReadArgs(buf: array<char>, ps: seq<Pointer>, ghost args: seq<Arg>, ghost es: seq<nat>) returns (out: seq<Arg>)
    requires AllClosed(buf[..], ps, args, es)
    ensures out == args
  {
    hide Closed;
    out := [];
    for m := 0 to |ps|
      invariant out == args[..m]
    {
      var a := ReadArg(buf, ps[m], args[m], es[m]);
      out := out + [a];
    }
  }

  // ---------------------------------------------------------------------- a line

  /** The buffer while the table is searched: nothing has matched yet, or the first match, f, has
      overwritten parts of the line behind its own name. */
  ghost predicate Searched(b: seq<char>, line: string, f: int, i: nat) {
    && |b| == PIPE_BUF && |line| < |b| && b[|line|] == '\0' && '\0' !in line && -1 <= f < i <= |TABLE|
    && (if f == -1 then b[..|line|] == line
        else TABLE[f].cmd <= line && b[..|TABLE[f].cmd|] == TABLE[f].cmd)
  }

  lemma NamesAreWords(i: nat)
    requires i < |TABLE|
    ensures 0 < |TABLE[i].cmd| <= 15 && '\0' !in TABLE[i].cmd
  {
    if i < 6 {
      SetNames(i);
    } else {
      OtherNames(i);
    }
  }

  lemma SetNames(i: nat)
    requires i < 6
    ensures 0 < |TABLE[i].cmd| <= 15 && '\0' !in TABLE[i].cmd
  {
  }

  lemma OtherNames(i: nat)
    requires 6 <= i < |TABLE|
    ensures 0 < |TABLE[i].cmd| <= 15 && '\0' !in TABLE[i].cmd
  {
  }

  lemma PrefixesBoth(a: string, b: string, t: string)
    requires a <= t && b <= t && |a| <= |b|
    ensures a <= b
  {
    assert a == t[..|a|] && b == t[..|b|];
  }

  /** strncmp of the buffer with a command name finds out whether the line began with it, even
      after an earlier match has changed the buffer; a second match takes no arguments. */
  lemma CompareIsPrefix(b: seq<char>, line: string, f: int, i: nat)
    requires Searched(b, line, f, i) && i < |TABLE|
    ensures |TABLE[i].cmd| <= |b| && (b[..|TABLE[i].cmd|] == TABLE[i].cmd <==> TABLE[i].cmd <= line)
    ensures TABLE[i].cmd <= line && f >= 0 ==> TABLE[i].specs == []
  {
    hide *;
    SearchedFacts(b, line, f, i);
    NamesAreWords(i);
    var cmd := TABLE[i].cmd;
    if f == -1 {
      FirstCompare(b, line, cmd, i);
    } else {
      SecondCompare(b, line, f, i);
    }
  }

  lemma SearchedFacts(b: seq<char>, line: string, f: int, i: nat)
    requires Searched(b, line, f, i)
    ensures |b| == PIPE_BUF == 4096 && |line| < |b| && '\0' !in line && -1 <= f < i
  {
  }

  lemma FirstCompare(b: seq<char>, line: string, cmd: string, i: nat)
    requires Searched(b, line, -1, i) && '\0' !in cmd && |cmd| <= |b|
    ensures b[..|cmd|] == cmd <==> cmd <= line
  {
    if |cmd| <= |line| {
      assert b[..|line|][..|cmd|] == b[..|cmd|];
    } else {
      assert b[..|cmd|][|line|] == '\0';
    }
  }

  lemma SecondCompare(b: seq<char>, line: string, f: nat, i: nat)
    requires Searched(b, line, f, i) && i < |TABLE| && |TABLE[i].cmd| <= |b|
    ensures b[..|TABLE[i].cmd|] == TABLE[i].cmd <==> TABLE[i].cmd <= line
    ensures TABLE[i].cmd <= line ==> TABLE[i].specs == []
  {
    SearchedSecond(b, line, f, i);
    hide *;
    var a, c := TABLE[f].cmd, TABLE[i].cmd;
    if |c| <= |a| {
      PrefixSlice(b, 0, |c|, |a|);
      assert b[..|a|][0..|c|] == b[..|c|] == a[..|c|];
      assert c <= line ==> c <= a by { if c <= line { PrefixesBoth(c, a, line); } }
      assert c <= a ==> c <= line;
      if c <= line {
        TwoCommands(line, f, i);
        PaintIsBare();
      }
    } else {
      if c <= line {
        TwoCommands(line, f, i);
        PaintIsBare();
        assert false;
      }
      if b[..|c|] == c {
        PrefixSlice(b, 0, |a|, |c|);
        assert a <= c;
        TwoCommands(c, f, i);
        PaintIsBare();
        assert false;
      }
    }
  }

  lemma SearchedSecond(b: seq<char>, line: string, f: nat, i: nat)
    requires Searched(b, line, f, i)
    ensures f < i && TABLE[f].cmd <= line && |TABLE[f].cmd| <= |b| && b[..|TABLE[f].cmd|] == TABLE[f].cmd
  {
    NamesAreWords(f);
  }

  /** One round of the search through the table. */
  method TryEntry(buf: array<char>, n: nat, i: nat, ghost line: string, ghost f: int)
    returns (matched: bool, ok: bool, args: seq<Arg>)
    requires Searched(buf[..], line, f, i) && i < |TABLE| && n == |line|
    modifies buf
    ensures matched == (TABLE[i].cmd <= line)
    ensures !matched ==> buf[..] == old(buf[..])
    ensures matched ==> Searched(buf[..], line, if f == -1 then i else f, i + 1)
    ensures matched ==> ParseArgs(line[|TABLE[i].cmd|..], TABLE[i].specs) == if ok then Parsed(args) else Abandoned
  {
    hide Searched, ParseArgs, AllClosed;
    ghost var b0 := buf[..];
    CompareIsPrefix(b0, line, f, i);
    var k := |TABLE[i].cmd|;
    matched := buf[..k] == TABLE[i].cmd;
    if !matched {
      return false, false, [];
    }
    MatchedNext(b0, line, f, i);
    if |TABLE[i].specs| == 0 {
      NoArgs(line[k..]);
      return true, true, [];
    }
    assert b0[k..n] == line[k..] && CString(b0, k, n) by { RestOfLine(b0, line, i); }
    ghost var ps0 := buf[k..n];
    assert ps0 == b0[k..n];
    var ps;
    ghost var found, es;
    ok, ps, found, es := ParseEntry(buf, k, n, TABLE[i].specs);
    MatchedAndParsed(b0, buf[..], line, i);
    if ok {
      args := ReadArgs(buf, ps, found, es);
    } else {
      args := [];
    }
  }

  lemma NoArgs(s: string)
    ensures ParseArgs(s, []) == Parsed([])
  {
  }

  lemma RestOfLine(b: seq<char>, line: string, i: nat)
    requires Searched(b, line, -1, i) && i < |TABLE| && TABLE[i].cmd <= line
    ensures var k := |TABLE[i].cmd|; b[k..|line|] == line[k..] && CString(b, k, |line|)
  {
    var k, n := |TABLE[i].cmd|, |line|;
    hide *;
    assert n < |b| && b[n] == '\0' && '\0' !in line && b[..n] == line by { SearchedFirst(b, line, i); }
    assert b[..n][k..] == b[k..n];
    CStringOf(b, line, k);
  }

  lemma SearchedFirst(b: seq<char>, line: string, i: nat)
    requires Searched(b, line, -1, i)
    ensures |line| < |b| && b[|line|] == '\0' && '\0' !in line && b[..|line|] == line
  {
  }

  lemma CStringOf(b: seq<char>, line: string, k: nat)
    requires k <= |line| < |b| && b[|line|] == '\0' && '\0' !in line && b[..|line|] == line
    ensures CString(b, k, |line|)
  {
    assert forall i :: 0 <= i < |line| ==> b[i] == line[i];
  }

  lemma MatchedNext(b: seq<char>, line: string, f: int, i: nat)
    requires Searched(b, line, f, i) && i < |TABLE| && TABLE[i].cmd <= line
    requires |TABLE[i].cmd| <= |b| && b[..|TABLE[i].cmd|] == TABLE[i].cmd
    ensures Searched(b, line, if f == -1 then i else f, i + 1)
  {
  }

  lemma MatchedAndParsed(b: seq<char>, b': seq<char>, line: string, i: nat)
    requires i < |TABLE| && TABLE[i].cmd <= line && Searched(b, line, -1, i) && |b'| == |b|
    requires |TABLE[i].cmd| <= |b| && b[..|TABLE[i].cmd|] == TABLE[i].cmd
    requires b'[..|TABLE[i].cmd|] == b[..|TABLE[i].cmd|] && b'[|line|] == '\0'
    ensures Searched(b', line, i, i + 1)
  {
  }

  /** The search through the table for one line of text in the buffer. */
  method HandleLine(buf: array<char>, n: nat) returns (calls: seq<Call>)
    requires buf.Length == PIPE_BUF && CString(buf[..], 0, n)
    modifies buf
    ensures calls == Dispatch(old(buf[..n]))
  {
    hide Searched, ParseArgs, DispatchFrom;
    ghost var line := buf[..n];
    ghost var f := -1;
    calls := [];
    SearchedStart(buf[..], n);
    for i := 0 to |TABLE|
      invariant -1 <= f < i && Searched(buf[..], line, f, i)
      invariant DispatchFrom(line, 0) == calls + DispatchFrom(line, i)
    {
      var matched, ok, args := TryEntry(buf, n, i, line, f);
      if matched {
        DispatchStep(line, i);
        if !ok {
          return;
        }
        f := if f == -1 then i else f;
        calls := calls + [Call(TABLE[i].cmd, args)];
      } else {
        DispatchSkip(line, i);
        SearchedSkip(buf[..], line, f, i);
      }
    }
    DispatchEnd(line);
  }

  lemma SearchedStart(b: seq<char>, n: nat)
    requires |b| == PIPE_BUF && CString(b, 0, n)
    ensures Searched(b, b[..n], -1, 0)
  {
  }

  lemma SearchedSkip(b: seq<char>, line: string, f: int, i: nat)
    requires Searched(b, line, f, i) && i < |TABLE|
    ensures Searched(b, line, f, i + 1)
  {
  }

  lemma DispatchSkip(line: string, i: nat)
    requires i < |TABLE| && !(TABLE[i].cmd <= line)
    ensures DispatchFrom(line, i) == DispatchFrom(line, i + 1)
  {
    hide ParseArgs;
  }

  lemma DispatchEnd(line: string)
    ensures DispatchFrom(line, |TABLE|) == []
  {
  }

  // -------------------------------------------------------------------- the stream

  lemma LineEndStep(s: string, k: nat)
    requires s != [] && k > 0
    ensures LineEnd(s, k) == 1 + if s[0] == '\n' then 0 else LineEnd(s[1..], k - 1)
  {
  }

  /** fgets from position p of what was written to the pipe. */
  method Fgets(buf: array<char>, stream: string, p: nat) returns (len: nat)
    requires buf.Length == PIPE_BUF && p < |stream|
    modifies buf
    ensures 0 < len == LineEnd(stream[p..], PIPE_BUF - 1) && p + len <= |stream|
    ensures buf[..len] == stream[p..p + len] && buf[len] == '\0'
  {
    hide LineEnd;
    len := 0;
    var newline := false;
    while !newline && p + len < |stream| && len < PIPE_BUF - 1
      invariant p + len <= |stream| && len <= PIPE_BUF - 1 && (newline ==> len > 0)
      invariant LineEnd(stream[p..], PIPE_BUF - 1) == len + if newline then 0 else LineEnd(stream[p + len..], PIPE_BUF - 1 - len)
      invariant forall i :: 0 <= i < len ==> buf[i] == stream[p + i]
      decreases |stream| - p - len, !newline
    {
      var c := stream[p + len];
      LineEndStep(stream[p + len..], PIPE_BUF - 1 - len);
      assert stream[p + len..][1..] == stream[p + len + 1..];
      buf[len] := c;
      len := len + 1;
      newline := c == '\n';
    }
    buf[len] := '\0';
    NoMore(stream[p + len..], PIPE_BUF - 1 - len);
  }

  lemma NoMore(s: string, k: nat)
    ensures s == [] || k == 0 ==> LineEnd(s, k) == 0
  {
  }

  method StrLen(buf: array<char>, ghost n: nat) returns (len: nat)
    requires CString(buf[..], 0, n)
    ensures len == n
  {
    len := 0;
    while buf[len] != '\0'
      invariant len <= n
      decreases n - len
    {
      len := len + 1;
    }
  }

  lemma Filled(b: seq<char>, stream: string, p: nat, len: nat, n: nat)
    requires '\0' !in stream && n <= len < |b| && p + len <= |stream| && b[..len] == stream[p..p + len]
    ensures forall i :: 0 <= i < n ==> b[i] != '\0'
    ensures b[..n] == stream[p..][..n]
  {
    assert forall i :: 0 <= i < n ==> b[i] == b[..len][i] == stream[p + i];
  }

  lemma ServedNext(stream: string, p: nat, len: nat)
    requires p < |stream| && 0 < len == LineEnd(stream[p..], PIPE_BUF - 1) && p + len <= |stream|
    ensures Served(stream[p..]) == Dispatch(stream[p..][..len - 1]) + Served(stream[p + len..])
  {
    hide Dispatch;
    assert stream[p..][len..] == stream[p + len..];
  }

  /** daemon_comm, on all that is written to the pipe until its writers are gone. */
  method DaemonComm(stream: string) returns (calls: seq<Call>)
    requires '\0' !in stream
    ensures calls == Served(stream)
  {
    hide Served, Dispatch, LineEnd;
    var buf := new char[PIPE_BUF];
    calls := [];
    var p := 0;
    assert stream[0..] == stream;
    while p < |stream|
      invariant p <= |stream| && Served(stream) == calls + Served(stream[p..])
      decreases |stream| - p
    {
      var len := Fgets(buf, stream, p);
      buf[PIPE_BUF - 1] := '\0';
      Filled(buf[..], stream, p, len, len);
      var last := StrLen(buf, len);
      buf[last - 1] := '\0';
      FilledShort(buf[..], stream, p, len - 1);
      var more := HandleLine(buf, last - 1);
      ServedNext(stream, p, len);
      calls := calls + more;
      p := p + len;
    }
    NothingServed(stream[p..]);
  }

  lemma FilledShort(b: seq<char>, stream: string, p: nat, n: nat)
    requires '\0' !in stream && n < |b| && p + n <= |stream| && b[..n] == stream[p..p + n] && b[n] == '\0'
    ensures CString(b, 0, n) && b[..n] == stream[p..][..n]
  {
    Filled(b, stream, p, n, n);
  }

  lemma NothingServed(s: string)
    ensures s == [] ==> Served(s) == []
  {
  }
}
