/**
  Clients of the daemon: the text a client sends for a scene command, and what the handlers make
  of the calls that arrive (core/src/daemon_cmd.c, the cmd_ functions of the paint commands,
  progress and update_svc).
 */
module Clients {
  import opened Objects
  import opened Rects
  import opened Framebuffer
  import opened Scene
  import opened Runs
  import opened Services
  import opened Commands
  import opened Decimals

  predicate FitsInt(v: int) {
    -0x8000_0000 <= v < 0x8000_0000
  }

  /** Scene commands that can be written as text. */
  predicate Expressible(c: Cmd) {
    match c
    case SetProgress(v) => FitsInt(v)
    case Service(name, _) => name != [] && ' ' !in name && '\n' !in name && '%' !in name && |name| <= 200
    case Paint(_) => true
    case Repaint => true
    case PaintArea(x0, y0, x1, y1) => FitsInt(x0) && FitsInt(y0) && FitsInt(x1) && FitsInt(y1)
    case _ => false
  }

  function RequestOf(c: Cmd): Request
    requires Expressible(c)
  {
    match c
    case SetProgress(v) => Request(11, [Number(v)])
    case Service(name, state) => Request(12, [Text(name), Text(StateName(state))])
    case Paint(_) => Request(9, [])
    case Repaint => Request(10, [])
    case PaintArea(x0, y0, x1, y1) => Request(8, [Number(x0), Number(y0), Number(x1), Number(y1)])
  }

  /** What a handler does to the scene.  A painting handler gets `pads`, which stands for the
      pointer fields that box_prerender compares.  Calls with a missing argument are not here:
      those handlers follow a null pointer. */
  function EffectOf(c: Call, pads: seq<bool>): seq<Cmd> {
    if c.cmd == "progress" && |c.args| == 1 && c.args[0].Number? then [SetProgress(c.args[0].value)]
    else if c.cmd == "update_svc" && |c.args| == 2 && c.args[0].Text? && c.args[1].Text? then
      var s := ParseState(c.args[1].text);
      if s.Some? then [Service(c.args[0].text, s.value)] else []
    else if c.cmd == "paint" then [Paint(pads)]
    else if c.cmd == "repaint" then [Repaint]
    else if c.cmd == "paint rect" && |c.args| == 4 && (forall i :: 0 <= i < 4 ==> c.args[i].Number?) then
      [PaintArea(c.args[0].value, c.args[1].value, c.args[2].value, c.args[3].value)]
    else []
  }

  /** The effects of several calls, each with its own pointer fields. */
  function Effects(cs: seq<Call>, pads: seq<seq<bool>>): seq<Cmd>
    requires |pads| == |cs|
  {
    if cs == [] then [] else EffectOf(cs[0], pads[0]) + Effects(cs[1..], pads[1..])
  }

  lemma StateNameWord(s: SvcState)
    ensures var n := StateName(s); n != [] && |n| <= 18 && ' ' !in n && '\n' !in n && '%' !in n && n[0] == 's'
  {
  }

  lemma ExpressiblePrintable(c: Cmd)
    requires Expressible(c)
    ensures var r := RequestOf(c); r.i < |TABLE| && Typed(TABLE[r.i].specs, r.args) && Printable(r.args)
  {
    hide StateName;
    if c.Service? {
      StateNameWord(c.state);
    }
  }

  lemma EffectsOfTwo(a: Call, b: Call, p: seq<bool>, q: seq<bool>)
    ensures Effects([a], [p]) == EffectOf(a, p)
    ensures Effects([a] + [b], [p, q]) == EffectOf(a, p) + EffectOf(b, q)
  {
    hide EffectOf;
    assert ([a] + [b])[1..] == [b] && [a][1..] == [] && [b][1..] == [];
    assert [p, q][1..] == [q] && [p][1..] == [];
    assert Effects([b], [q]) == EffectOf(b, q);
  }

  lemma EffectOfOwnCall(c: Cmd, pads: seq<bool>)
    requires Expressible(c) && (c.Paint? ==> c.pads == pads)
    ensures var r := RequestOf(c);
            r.i < |TABLE| && EffectOf(Call(TABLE[r.i].cmd, r.args), pads) == [c]
    ensures TABLE[RequestOf(c).i].cmd == "paint rect" <==> c.PaintArea?
  {
    if c.Service? {
      OwnName(c.state);
    }
  }

  /** The effects of one scene command sent as text: an area painted by text is followed by an
      incremental paint of the whole scene. */
  function Extended(c: Cmd, extra: seq<bool>): seq<Cmd> {
    [c] + if c.PaintArea? then [Paint(extra)] else []
  }

  /** The pointer fields for the calls of one command: those of the command itself, and those of
      the extra paint. */
  function CallPads(c: Cmd, extra: seq<bool>): seq<seq<bool>> {
    [if c.Paint? then c.pads else []] + if c.PaintArea? then [extra] else []
  }

  /** A scene command sent as text has exactly its own effect, and that of the extra paint. */
  lemma TextRunsCommand(c: Cmd, extra: seq<bool>)
    requires Expressible(c)
    ensures RequestOf(c).i < |TABLE|
    ensures var calls := CallsOf(TABLE[RequestOf(c).i], RequestOf(c).args);
            && Dispatch(LineOf(RequestOf(c))) == calls
            && |calls| == |CallPads(c, extra)|
            && Effects(calls, CallPads(c, extra)) == Extended(c, extra)
  {
    hide Dispatch, Print, EffectOf;
    var r := RequestOf(c);
    var p := if c.Paint? then c.pads else [];
    ExpressiblePrintable(c);
    PrintedDispatchIff(r.i, r.args);
    EffectOfOwnCall(c, p);
    EffectsOfTwo(Call(TABLE[r.i].cmd, r.args), Call("paint", []), p, extra);
    PaintEffect(extra);
    assert [p] + [extra] == [p, extra];
  }

  lemma PaintEffect(pads: seq<bool>)
    ensures EffectOf(Call("paint", []), pads) == [Paint(pads)]
  {
  }

  // ------------------------------------------------------------------ many commands

  predicate Clean(s: string) {
    '\n' !in s && '%' !in s
  }

  lemma CleanConcat(a: string, b: string)
    requires Clean(a) && Clean(b)
    ensures Clean(a + b)
  {
  }

  lemma CleanDecimal(v: int)
    ensures Clean(Decimal(v))
  {
    var s := Decimal(v);
    forall i | 0 <= i < |s| ensures s[i] == '-' || '0' <= s[i] <= '9' {
      if v < 0 && i > 0 {
        assert s[i] == Digits(-v)[i - 1];
      }
    }
  }

  lemma {:induction false} CleanArgs(args: seq<Arg>)
    requires forall i :: 0 <= i < |args| ==> Clean(Show(args[i]))
    ensures Clean(PrintArgs(args))
    decreases |args|
  {
    hide Clean, Show;
    if args == [] {
      assert Clean([]) by { Nothing(); }
    } else {
      CleanArgs(args[1..]);
      CleanConcat(" ", Show(args[0]));
      CleanConcat(" " + Show(args[0]), PrintArgs(args[1..]));
    }
  }

  lemma Nothing()
    ensures Clean([]) && Clean(" ")
  {
  }

  /** An upper bound on the length of printed arguments. */
  function Widths(args: seq<Arg>): nat {
    if args == [] then 0 else 1 + |Show(args[0])| + Widths(args[1..])
  }

  lemma {:induction false} PrintedWidth(args: seq<Arg>)
    ensures |PrintArgs(args)| == Widths(args)
    decreases |args|
  {
    if args != [] {
      PrintedWidth(args[1..]);
    }
  }

  lemma WidthOfNumbers(args: seq<Arg>, n: nat)
    requires |args| == n && forall i :: 0 <= i < n ==> args[i].Number? && FitsInt(args[i].value)
    ensures Widths(args) <= 12 * n
    decreases n
  {
    if n > 0 {
      DecimalLength(args[0].value);
      WidthOfNumbers(args[1..], n - 1);
    }
  }

  lemma ExpressibleSendable(c: Cmd)
    requires Expressible(c)
    ensures Sendable(RequestOf(c))
  {
    hide Decimal, PrintArgs, Sent;
    var r := RequestOf(c);
    ExpressiblePrintable(c);
    forall i | 0 <= i < |r.args| ensures Clean(Show(r.args[i])) {
      if r.args[i].Number? {
        CleanDecimal(r.args[i].value);
      } else if c.Service? {
        StateNameWord(c.state);
      }
    }
    CleanArgs(r.args);
    PrintedWidth(r.args);
    if c.Service? {
      StateNameWord(c.state);
      WidthOfTwo(r.args);
    } else {
      WidthOfNumbers(r.args, |r.args|);
    }
    NameClean(r.i);
    assert Clean(LineOf(r)) by { CleanConcat(TABLE[r.i].cmd, PrintArgs(r.args)); }
    SentWholeIff(LineOf(r) + "\n");
  }

  lemma WidthOfTwo(args: seq<Arg>)
    requires |args| == 2
    ensures Widths(args) == 2 + |Show(args[0])| + |Show(args[1])|
  {
    assert args[1..][1..] == [] && args[1..][0] == args[1];
    assert Widths(args[1..]) == 1 + |Show(args[1])| + Widths([]);
  }

  lemma NameClean(i: nat)
    requires 8 <= i <= 12
    ensures Clean(TABLE[i].cmd) && |TABLE[i].cmd| <= 15
  {
  }

  function Requests(cs: seq<Cmd>): seq<Request>
    requires forall k :: 0 <= k < |cs| ==> Expressible(cs[k])
  {
    seq(|cs|, k requires 0 <= k < |cs| => RequestOf(cs[k]))
  }

  function ExtendedAll(cs: seq<Cmd>, extra: seq<seq<bool>>): seq<Cmd>
    requires |extra| == |cs|
  {
    if cs == [] then [] else Extended(cs[0], extra[0]) + ExtendedAll(cs[1..], extra[1..])
  }

  function AllPads(cs: seq<Cmd>, extra: seq<seq<bool>>): seq<seq<bool>>
    requires |extra| == |cs|
  {
    if cs == [] then [] else CallPads(cs[0], extra[0]) + AllPads(cs[1..], extra[1..])
  }

  lemma {:induction false} EffectsConcat(a: seq<Call>, b: seq<Call>, p: seq<seq<bool>>, q: seq<seq<bool>>)
    requires |p| == |a| && |q| == |b|
    ensures Effects(a + b, p + q) == Effects(a, p) + Effects(b, q)
    decreases |a|
  {
    hide EffectOf;
    if a == [] {
      assert a + b == b && p + q == q;
    } else {
      assert (a + b)[1..] == a[1..] + b && (p + q)[1..] == p[1..] + q;
      EffectsConcat(a[1..], b, p[1..], q);
    }
  }

  lemma AllCanBeSent(cs: seq<Cmd>)
    requires forall k :: 0 <= k < |cs| ==> Expressible(cs[k])
    ensures AllSendable(Requests(cs))
  {
    hide Expressible, Sendable, RequestOf;
    forall k | 0 <= k < |cs| ensures Sendable(Requests(cs)[k]) {
      ExpressibleSendable(cs[k]);
    }
  }

  lemma {:induction false} CallsHaveEffects(cs: seq<Cmd>, extra: seq<seq<bool>>)
    requires |extra| == |cs| && forall k :: 0 <= k < |cs| ==> Expressible(cs[k])
    requires AllSendable(Requests(cs))
    ensures |AllCalls(Requests(cs))| == |AllPads(cs, extra)|
    ensures Effects(AllCalls(Requests(cs)), AllPads(cs, extra)) == ExtendedAll(cs, extra)
    decreases |cs|
  {
    hide Expressible, Sendable, RequestOf, EffectOf, Extended, CallsOf, CallPads;
    if cs != [] {
      assert Requests(cs)[1..] == Requests(cs[1..]);
      CallsHaveEffects(cs[1..], extra[1..]);
      TextRunsCommand(cs[0], extra[0]);
      EffectsConcat(CallsOf(TABLE[RequestOf(cs[0]).i], RequestOf(cs[0]).args), AllCalls(Requests(cs[1..])),
                    CallPads(cs[0], extra[0]), AllPads(cs[1..], extra[1..]));
    }
  }

  /** From the client to the scene: the text of any sequence of scene commands, sent through the
      pipe and parsed, has exactly the effects of these commands in order, whatever the pointer
      fields of each paint. */
  lemma TextsRunCommands(cs: seq<Cmd>, extra: seq<seq<bool>>)
    requires |extra| == |cs| && forall k :: 0 <= k < |cs| ==> Expressible(cs[k])
    ensures AllSendable(Requests(cs))
    ensures var calls := Served(Written(Requests(cs)));
            |calls| == |AllPads(cs, extra)| && Effects(calls, AllPads(cs, extra)) == ExtendedAll(cs, extra)
  {
    hide Expressible, Sendable, RequestOf, EffectOf;
    AllCanBeSent(cs);
    RequestsArrive(Requests(cs));
    CallsHaveEffects(cs, extra);
  }

  // ------------------------------------------------------------------ progress by text

  lemma {:induction false} ExtendedProgress(cs: seq<Cmd>, extra: seq<seq<bool>>)
    requires |extra| == |cs|
    ensures LastProgress(ExtendedAll(cs, extra)) == LastProgress(cs)
    decreases |cs|
  {
    if cs != [] {
      ExtendedProgress(cs[1..], extra[1..]);
      LastOfConcat(Extended(cs[0], extra[0]), ExtendedAll(cs[1..], extra[1..]));
      LastOfConcat([cs[0]], cs[1..]);
      assert [cs[0]] + cs[1..] == cs;
      FirstProgress(cs[0], extra[0]);
    }
  }

  lemma FirstProgress(c: Cmd, extra: seq<bool>)
    ensures LastProgress(Extended(c, extra)) == LastProgress([c]) == if c.SetProgress? then Some(c.value) else None
  {
    assert [c][..0] == [] && [c] + [] == [c];
    assert LastProgress([]) == None;
    if c.PaintArea? {
      assert ([c] + [Paint(extra)])[..1] == [c];
    }
  }

  lemma {:induction false} LastOfConcat(a: seq<Cmd>, b: seq<Cmd>)
    ensures LastProgress(a + b) == if LastProgress(b).Some? then LastProgress(b) else LastProgress(a)
    decreases |b|
  {
    if b == [] {
      assert a + b == a;
    } else {
      assert (a + b)[..|a + b| - 1] == a + b[..|b| - 1];
      LastOfConcat(a, b[..|b| - 1]);
    }
  }

  /** After any sequence of scene commands sent as text, the progress of the daemon is the value in
      range nearest to that of the last progress command among them. */
  lemma TextsSetProgress(su: Setup, s: State, cs: seq<Cmd>, extra: seq<seq<bool>>)
    requires WellFormed(su, s)
    requires |extra| == |cs| && forall k :: 0 <= k < |cs| ==> Expressible(cs[k])
    ensures AllSendable(Requests(cs))
    ensures var calls := Served(Written(Requests(cs)));
            && |calls| == |AllPads(cs, extra)|
            && var e := Run(su, s, Effects(calls, AllPads(cs, extra)));
               if LastProgress(cs).Some? then NearestProgress(e.progress, LastProgress(cs).value) else e.progress == s.progress
  {
    hide Expressible, Sendable, RequestOf, EffectOf, Run, WellFormed, NearestProgress, LastProgress;
    TextsRunCommands(cs, extra);
    RunProgress(su, s, ExtendedAll(cs, extra));
    ExtendedProgress(cs, extra);
  }
}
